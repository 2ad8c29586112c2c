/** The token engine's transaction pool, a ring buffer, and the assembly of blocks from it. */
module Mempool {
  import opened Options
  import opened Remainders
  import opened Words

  const BLOCK_SIZE := 8192
  const GAS_LIMIT := 8_000_000

  datatype Transaction = Transaction(hash: seq<byte>, gasLimit: uint64)

  /** The n transactions stored from position head on. */
  ghost function Window(pool: seq<Transaction>, head: nat, n: nat): (w: seq<Transaction>)
    requires n > 0 ==> pool != []
    ensures |w| == n
    decreases n
  {
    if n == 0 then [] else Window(pool, head, n - 1) + [pool[(head + n - 1) % |pool|]]
  }

  lemma {:induction false} WindowAt(pool: seq<Transaction>, head: nat, n: nat, i: nat)
    requires pool != [] && i < n
    ensures Window(pool, head, n)[i] == pool[(head + i) % |pool|]
    decreases n
  {
    if i < n - 1 { WindowAt(pool, head, n - 1, i); }
  }

  lemma {:induction false} WindowWrite(pool: seq<Transaction>, head: nat, n: nat, at: nat, tx: Transaction)
    requires pool != [] && head + n <= at < head + |pool|
    ensures Window(pool[at % |pool| := tx], head, n) == Window(pool, head, n)
    decreases n
  {
    if n > 0 {
      WindowWrite(pool, head, n - 1, at, tx);
      RemaindersDiffer(head + n - 1, at, |pool|);
    }
  }

  lemma {:induction false} WindowTail(pool: seq<Transaction>, head: nat, n: nat)
    requires pool != [] && n > 0
    ensures Window(pool, head, n)[1..] == Window(pool, head + 1, n - 1)
    ensures Window(pool, head, n)[0] == pool[head % |pool|]
    decreases n
  {
    if n > 1 {
      WindowTail(pool, head, n - 1);
      assert (head + 1) + (n - 1) - 1 == head + n - 1;
    }
  }

  class TransactionPool {
    const pool: array<Transaction>
    var head: nat
    var tail: nat
    var size: nat
    var totalAdded: nat
    var totalRemoved: nat

    ghost predicate Valid()
      reads this, pool
    {
      tail < TWO_TO_THE_64 && size <= pool.Length &&
      size == tail - head == totalAdded - totalRemoved && tail == totalAdded && head == totalRemoved
    }

    /** The queue the ring stands for, oldest first. */
    ghost function Queue(): (q: seq<Transaction>)
      requires Valid()
      reads this, pool
      ensures |q| == size
    {
      Window(pool[..], head, size)
    }

    constructor (capacity: nat)
      ensures Valid() && fresh(pool) && pool.Length == capacity && Queue() == []
      ensures totalAdded == totalRemoved == 0
    {
      pool := new Transaction[capacity](_ => Transaction([], 0));
      head, tail, size, totalAdded, totalRemoved := 0, 0, 0, 0, 0;
    }

    method Add(tx: Transaction) returns (ok: bool)
      requires Valid() && tail + 1 < TWO_TO_THE_64
      modifies this, pool
      ensures Valid()
      ensures ok <==> |old(Queue())| < pool.Length
      ensures Queue() == if ok then old(Queue()) + [tx] else old(Queue())
      ensures totalAdded == (if ok then old(totalAdded) + 1 else old(totalAdded)) && totalRemoved == old(totalRemoved)
    {
      if size >= pool.Length { return false; }
      var idx := tail % pool.Length;
      ghost var slots := pool[..];
      WindowWrite(slots, head, size, tail, tx);
      pool[idx] := tx;
      assert pool[..] == slots[idx := tx];
      tail, size, totalAdded := tail + 1, size + 1, totalAdded + 1;
      ok := true;
    }

    method Pop() returns (tx: Option<Transaction>)
      requires Valid()
      modifies this
      ensures Valid()
      ensures if old(Queue()) == [] then tx == None && Queue() == []
              else tx == Some(old(Queue())[0]) && Queue() == old(Queue())[1..]
      ensures totalRemoved == (if tx.Some? then old(totalRemoved) + 1 else old(totalRemoved))
              && totalAdded == old(totalAdded) && tail == old(tail)
    {
      if size == 0 { return None; }
      WindowTail(pool[..], head, size);
      tx := Some(pool[head % pool.Length]);
      head, size, totalRemoved := head + 1, size - 1, totalRemoved + 1;
    }

    method Peek() returns (tx: Option<Transaction>)
      requires Valid()
      ensures tx == if Queue() == [] then None else Some(Queue()[0])
    {
      if size == 0 { return None; }
      WindowTail(pool[..], head, size);
      tx := Some(pool[head % pool.Length]);
    }

    /** Despite its name this only reports whether a transaction with the hash is queued. */
    method RemoveByHash(hash: seq<byte>) returns (found: bool)
      requires Valid()
      ensures found <==> exists i :: 0 <= i < |Queue()| && Queue()[i].hash == hash
    {
      ghost var q := Queue();
      var current := head;
      while current < tail
        invariant head <= current <= tail
        invariant forall i :: 0 <= i < current - head ==> q[i].hash != hash
      {
        var idx := current % pool.Length;
        WindowAt(pool[..], head, size, current - head);
        assert q[current - head] == pool[idx];
        if pool[idx].hash == hash {
          assert Queue()[current - head].hash == hash;
          return true;
        }
        current := current + 1;
      }
      found := false;
    }
  }

  // ----- Block assembly -----

  function AddGas(total: nat, gas: nat): nat {
    (total + gas) % TWO_TO_THE_64
  }

  /** How many transactions the assembly loop takes when it starts from a running total of gas. */
  function Taken(queue: seq<Transaction>, total: nat, room: nat): (k: nat)
    ensures k <= |queue| && k <= room
    decreases |queue|
  {
    if queue == [] || room == 0 || AddGas(total, queue[0].gasLimit) > GAS_LIMIT then 0
    else 1 + Taken(queue[1..], AddGas(total, queue[0].gasLimit), room - 1)
  }

  /** The pool after assembly took k: a transaction popped but over the limit goes to the back. */
  function Rest(queue: seq<Transaction>, k: nat): seq<Transaction>
    requires k <= |queue|
  {
    if k < |queue| && k < BLOCK_SIZE then queue[k + 1..] + [queue[k]] else queue[k..]
  }

  function Gas(txs: seq<Transaction>): nat
    decreases |txs|
  {
    if txs == [] then 0 else txs[0].gasLimit + Gas(txs[1..])
  }

  ghost function TakenFrom(queue: seq<Transaction>, i: nat, total: nat): nat
    requires i <= |queue| && i <= BLOCK_SIZE
  {
    Taken(queue[i..], total, BLOCK_SIZE - i)
  }

  lemma TakenNext(queue: seq<Transaction>, i: nat, total: nat)
    requires i < |queue| && i < BLOCK_SIZE
    ensures var more := AddGas(total, queue[i].gasLimit);
            TakenFrom(queue, i, total) == if more > GAS_LIMIT then 0 else 1 + TakenFrom(queue, i + 1, more)
    ensures queue[i..][0] == queue[i] && queue[i..][1..] == queue[i + 1..]
    ensures queue[..i] + [queue[i]] == queue[..i + 1]
  {
  }

  /** The loop that pops transactions into the block. */
  method Assemble(pool: TransactionPool) returns (transactions: seq<Transaction>)
    requires pool.Valid() && pool.tail + 1 < TWO_TO_THE_64
    modifies pool, pool.pool
    ensures pool.Valid()
    ensures var q := old(pool.Queue());
            var k := Taken(q, 0, BLOCK_SIZE);
            transactions == q[..k] && pool.Queue() == Rest(q, k)
  {
    ghost var q := pool.Queue();
    ghost var k := Taken(q, 0, BLOCK_SIZE);
    transactions := [];
    var totalGas, i := 0, 0;
    while i < BLOCK_SIZE
      invariant pool.Valid() && pool.tail == old(pool.tail)
      invariant 0 <= i <= BLOCK_SIZE && i == |transactions| <= |q|
      invariant transactions == q[..i] && pool.Queue() == q[i..]
      invariant k == i + TakenFrom(q, i, totalGas)
    {
      var tx := pool.Pop();
      if tx.None? {
        assert q[i..] == [] && i == |q| && k == i;
        break;
      }
      TakenNext(q, i, totalGas);
      if AddGas(totalGas, tx.value.gasLimit) > GAS_LIMIT {
        var ok := pool.Add(tx.value);
        assert k == i && pool.Queue() == q[i + 1..] + [q[i]] == Rest(q, k);
        break;
      }
      transactions := transactions + [tx.value];
      totalGas := AddGas(totalGas, tx.value.gasLimit);
      i := i + 1;
    }
  }

  /** The loop that adds the gas limits into the block's 32-bit counter. */
  method GasUsed(transactions: seq<Transaction>) returns (gasUsed: nat)
    ensures gasUsed == Gas(transactions) % TWO_TO_THE_32
  {
    gasUsed := 0;
    for j := 0 to |transactions|
      invariant gasUsed == Gas(transactions[..j]) % TWO_TO_THE_32
    {
      gasUsed := (gasUsed + transactions[j].gasLimit) % TWO_TO_THE_32;
      GasAppend(transactions[..j], transactions[j]);
      assert transactions[..j + 1] == transactions[..j] + [transactions[j]];
    }
    assert transactions[..|transactions|] == transactions;
  }

  method CreateBlock(pool: TransactionPool) returns (transactions: seq<Transaction>, gasUsed: nat)
    requires pool.Valid() && pool.tail + 1 < TWO_TO_THE_64
    modifies pool, pool.pool
    ensures pool.Valid()
    ensures var q := old(pool.Queue());
            var k := |transactions|;
            k == Taken(q, 0, BLOCK_SIZE) <= 8192 && transactions == q[..k] &&
            pool.Queue() == if k < |q| && k < 8192 then q[k + 1..] + [q[k]] else q[k..]
    ensures gasUsed == Gas(transactions) % TWO_TO_THE_32
  {
    transactions := Assemble(pool);
    gasUsed := GasUsed(transactions);
  }

  lemma {:induction false} GasAppend(txs: seq<Transaction>, tx: Transaction)
    ensures Gas(txs + [tx]) == Gas(txs) + tx.gasLimit
    decreases |txs|
  {
    if txs != [] {
      GasAppend(txs[1..], tx);
      assert (txs + [tx])[1..] == txs[1..] + [tx];
    }
  }

  /** Assembly loses and duplicates nothing. */
  lemma AssemblyConserves(queue: seq<Transaction>)
    ensures var k := Taken(queue, 0, BLOCK_SIZE);
            multiset(queue[..k]) + multiset(Rest(queue, k)) == multiset(queue)
  {
    var k := Taken(queue, 0, BLOCK_SIZE);
    assert queue == queue[..k] + queue[k..];
    if k < |queue| {
      assert queue[k..] == [queue[k]] + queue[k + 1..];
    }
  }

  lemma NoWrap(total: nat, gas: nat)
    requires total + gas < TWO_TO_THE_64
    ensures AddGas(total, gas) == total + gas
  {
  }

  lemma GasOfPrefix(txs: seq<Transaction>, k: nat)
    requires 0 < k <= |txs|
    ensures Gas(txs[..k]) == txs[0].gasLimit + Gas(txs[1..][..k - 1])
  {
    assert txs[..k][1..] == txs[1..][..k - 1];
  }

  /** Transaction j is reached with the running total still exact and within the limit, and adding
      its gas wraps. */
  predicate WrapsAt(queue: seq<Transaction>, total: nat, j: nat)
    requires j < |queue|
  {
    total + Gas(queue[..j]) <= GAS_LIMIT && total + Gas(queue[..j]) + queue[j].gasLimit >= TWO_TO_THE_64
  }

  predicate NoneWraps(queue: seq<Transaction>, total: nat, room: nat) {
    forall j :: 0 <= j < |queue| && j < room ==> !WrapsAt(queue, total, j)
  }

  lemma WrapsAtNext(queue: seq<Transaction>, total: nat, j: nat)
    requires 0 < j < |queue|
    ensures WrapsAt(queue, total, j) <==> WrapsAt(queue[1..], total + queue[0].gasLimit, j - 1)
  {
    GasOfPrefix(queue, j);
  }

  lemma NoneWrapsNext(queue: seq<Transaction>, total: nat, room: nat)
    requires queue != [] && room > 0 && total + queue[0].gasLimit <= GAS_LIMIT
    ensures NoneWraps(queue, total, room) <==> NoneWraps(queue[1..], total + queue[0].gasLimit, room - 1)
  {
    var rest, more := queue[1..], total + queue[0].gasLimit;
    if NoneWraps(queue, total, room) {
      forall j | 0 <= j < |rest| && j < room - 1
        ensures !WrapsAt(rest, more, j)
      {
        WrapsAtNext(queue, total, j + 1);
      }
    }
    if NoneWraps(rest, more, room - 1) {
      forall j | 0 <= j < |queue| && j < room
        ensures !WrapsAt(queue, total, j)
      {
        if j > 0 {
          WrapsAtNext(queue, total, j);
        } else {
          NothingYet(queue);
        }
      }
    }
  }

  lemma NothingYet(queue: seq<Transaction>)
    ensures Gas(queue[..0]) == 0
  {
  }

  /** Nothing wraps: the block is the longest prefix within the limit. */
  lemma {:induction false} LongestPrefix(queue: seq<Transaction>, total: nat, room: nat)
    requires total <= GAS_LIMIT && NoneWraps(queue, total, room)
    ensures var k := Taken(queue, total, room);
            total + Gas(queue[..k]) <= GAS_LIMIT &&
            (k < |queue| && k < room ==> total + Gas(queue[..k + 1]) > GAS_LIMIT)
    decreases |queue|
  {
    var k := Taken(queue, total, room);
    if queue != [] && room > 0 {
      var g := queue[0].gasLimit;
      NothingYet(queue);
      assert !WrapsAt(queue, total, 0);
      NoWrap(total, g);
      if total + g <= GAS_LIMIT {
        NoneWrapsNext(queue, total, room);
        assert k == 1 + Taken(queue[1..], total + g, room - 1);
        LongestPrefix(queue[1..], total + g, room - 1);
        GasOfPrefix(queue, k);
        if k < |queue| {
          GasOfPrefix(queue, k + 1);
        }
      } else {
        GasOfPrefix(queue, 1);
      }
    }
  }

  lemma WrappedIsSmall(total: nat, gas: uint64)
    requires total <= GAS_LIMIT && total + gas >= TWO_TO_THE_64
    ensures AddGas(total, gas) <= GAS_LIMIT
  {
    assert AddGas(total, gas) == total + gas - TWO_TO_THE_64;
  }

  /** Something wraps: the block takes the transaction that does, and exceeds the limit. */
  lemma {:induction false} WrappedExceeds(queue: seq<Transaction>, total: nat, room: nat, j: nat)
    requires total <= GAS_LIMIT && j < |queue| && j < room && WrapsAt(queue, total, j)
    ensures total + Gas(queue[..Taken(queue, total, room)]) > GAS_LIMIT
    decreases |queue|
  {
    var g, k := queue[0].gasLimit, Taken(queue, total, room);
    if j == 0 {
      NothingYet(queue);
      WrappedIsSmall(total, g);
      GasOfPrefix(queue, k);
    } else {
      GasOfPrefix(queue, j);
      NoWrap(total, g);
      WrapsAtNext(queue, total, j);
      WrappedExceeds(queue[1..], total + g, room - 1, j - 1);
      GasOfPrefix(queue, k);
    }
  }

  /** The true gas sum of the block stays within the limit if and only if no addition wraps while the
      transactions before it are within the limit. */
  lemma GasWithinLimitIff(queue: seq<Transaction>)
    ensures Gas(queue[..Taken(queue, 0, BLOCK_SIZE)]) <= GAS_LIMIT <==> NoneWraps(queue, 0, BLOCK_SIZE)
  {
    if NoneWraps(queue, 0, BLOCK_SIZE) {
      LongestPrefix(queue, 0, BLOCK_SIZE);
    } else {
      var j :| 0 <= j < |queue| && j < BLOCK_SIZE && WrapsAt(queue, 0, j);
      WrappedExceeds(queue, 0, BLOCK_SIZE, j);
    }
  }

  /** When nothing wraps, the block takes k transactions if and only if k is the most that fits 8192 and a
      true gas sum of 8000000. */
  lemma TakenIff(queue: seq<Transaction>, k: nat)
    requires k <= |queue| && k <= 8192 && NoneWraps(queue, 0, 8192)
    ensures Taken(queue, 0, BLOCK_SIZE) == k <==>
            Gas(queue[..k]) <= 8_000_000 && (k < |queue| && k < 8192 ==> Gas(queue[..k + 1]) > 8_000_000)
  {
    var t := Taken(queue, 0, BLOCK_SIZE);
    LongestPrefix(queue, 0, BLOCK_SIZE);
    if t < k {
      GasGrows(queue, t + 1, k);
    } else if k < t {
      GasGrows(queue, k + 1, t);
    }
  }

  lemma {:induction false} GasGrows(queue: seq<Transaction>, j: nat, k: nat)
    requires j <= k <= |queue|
    ensures Gas(queue[..j]) <= Gas(queue[..k])
    decreases j
  {
    if j > 0 {
      GasOfPrefix(queue, j);
      GasOfPrefix(queue, k);
      GasGrows(queue[1..], j - 1, k - 1);
    } else {
      NothingYet(queue);
    }
  }

  /** Such additions exist: a gas limit of 2^64 - 1 after one of 1 is taken too. */
  lemma WrappedGasTaken()
    ensures var queue := [Transaction([], 1), Transaction([], TWO_TO_THE_64 - 1)];
            Taken(queue, 0, BLOCK_SIZE) == 2 && Gas(queue[..2]) == TWO_TO_THE_64
  {
    var queue := [Transaction([], 1), Transaction([], TWO_TO_THE_64 - 1)];
    var rest := queue[1..];
    assert rest == [Transaction([], TWO_TO_THE_64 - 1)];
    assert Taken(rest, 1, BLOCK_SIZE - 1) == 1;
    assert queue[..2] == queue && Gas(rest) == TWO_TO_THE_64 - 1 + Gas(rest[1..]);
  }
}
