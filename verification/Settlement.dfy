/** Transaction settlement on the balance cache. */
module Settlement {
  import opened Words
  import opened BalanceCaches
  import opened MapSums

  datatype Transaction = Transaction(
    from: Address, to: Address, amount: uint64, token: uint32,
    fee: uint32, gasPrice: uint32, gasLimit: uint64, deadline: uint32) {

    function Sender(): Key {
      Key(from, token)
    }

    function Recipient(): Key {
      Key(to, token)
    }

    /** In 64-bit arithmetic. */
    function GasCost(): nat {
      (gasPrice * gasLimit) % TWO_TO_THE_64 / 1_000_000_000
    }

    function TotalCost(): nat {
      (amount + fee + GasCost()) % TWO_TO_THE_64
    }

    /** The sum of amount, fee and gas does not wrap. */
    predicate CostFits() {
      amount + fee + GasCost() < TWO_TO_THE_64
    }
  }

  predicate Accepted(balance: nat, tx: Transaction, currentBlock: nat) {
    tx.TotalCost() <= balance && !(tx.deadline > 0 && tx.deadline < currentBlock)
  }

  /** A transaction is accepted if and only if the sender's balance covers amount, fee and gas, as 64-bit
      sums have them, and it has no deadline or the deadline has not passed. */
  lemma AcceptedIff(balance: nat, tx: Transaction, currentBlock: nat, gas: nat)
    requires IsGasCost(tx.gasPrice, tx.gasLimit, gas)
    ensures Accepted(balance, tx, currentBlock) <==>
            (tx.amount + tx.fee + gas) % TWO_TO_THE_64 <= balance && (tx.deadline == 0 || currentBlock <= tx.deadline)
  {
    GasCostIff(tx, gas);
  }

  /** gas is the product of price and limit, as a 64-bit product has it, in billionths, rounded down. */
  predicate IsGasCost(price: nat, limit: nat, gas: nat) {
    gas * 1_000_000_000 <= (price * limit) % TWO_TO_THE_64 < (gas + 1) * 1_000_000_000
  }

  lemma GasCostIff(tx: Transaction, gas: nat)
    ensures tx.GasCost() == gas <==> IsGasCost(tx.gasPrice, tx.gasLimit, gas)
  {
    var p := (tx.gasPrice * tx.gasLimit) % TWO_TO_THE_64;
    assert tx.GasCost() == p / 1_000_000_000;
    InBillionths(p, gas);
  }

  lemma InBillionths(p: nat, gas: nat)
    ensures p / 1_000_000_000 == gas <==> gas * 1_000_000_000 <= p < (gas + 1) * 1_000_000_000
  {
  }

  /** 64-bit negation. */
  function Negated(x: nat): nat
    requires x < TWO_TO_THE_64
  {
    (TWO_TO_THE_64 - x) % TWO_TO_THE_64
  }

  /** What an accepted transaction does to the balances: debit, then credit. */
  function Moved(m: map<Key, nat>, capacity: nat, tx: Transaction): map<Key, nat> {
    Updated(Updated(m, capacity, tx.Sender(), Negated(tx.TotalCost())), capacity, tx.Recipient(), tx.amount)
  }

  function Settled(m: map<Key, nat>, capacity: nat, tx: Transaction, currentBlock: nat): map<Key, nat> {
    if Accepted(Lookup(m, tx.Sender()), tx, currentBlock) then Moved(m, capacity, tx) else m
  }

  // ----- The table -----

  function MovedTable(entries: seq<Entry>, tx: Transaction): (r: seq<Entry>)
    requires entries != []
  {
    Write(Write(entries, tx.Sender(), Negated(tx.TotalCost())), tx.Recipient(), tx.amount)
  }

  function SettledTable(entries: seq<Entry>, tx: Transaction, currentBlock: nat): seq<Entry>
    requires entries != []
  {
    if Accepted(Read(entries, tx.Sender()), tx, currentBlock) then MovedTable(entries, tx) else entries
  }

  /** Settlement on the table is settlement on the map it stands for. */
  lemma SettlementRefines(entries: seq<Entry>, where: map<Key, nat>, tx: Transaction, currentBlock: nat)
    returns (where': map<Key, nat>)
    requires entries != [] && Placed(entries, where) && UsedSlots(entries) == |where|
    ensures var after := SettledTable(entries, tx, currentBlock);
            Placed(after, where') && UsedSlots(after) == |where'| &&
            Balances(after, where') == Settled(Balances(entries, where), |entries|, tx, currentBlock)
  {
    ReadRefines(entries, where, tx.Sender());
    where' := where;
    if Accepted(Read(entries, tx.Sender()), tx, currentBlock) {
      where' := MoveRefines(entries, where, tx);
    }
  }

  lemma MoveRefines(entries: seq<Entry>, where: map<Key, nat>, tx: Transaction) returns (where': map<Key, nat>)
    requires entries != [] && Placed(entries, where) && UsedSlots(entries) == |where|
    ensures var after := MovedTable(entries, tx);
            Placed(after, where') && UsedSlots(after) == |where'| &&
            Balances(after, where') == Moved(Balances(entries, where), |entries|, tx)
  {
    var debit := Negated(tx.TotalCost());
    var middle, w := Write(entries, tx.Sender(), debit), WhereAfter(entries, where, tx.Sender());
    WriteRefines(entries, where, tx.Sender(), debit);
    WriteRefines(middle, w, tx.Recipient(), tx.amount);
    where' := WhereAfter(middle, w, tx.Recipient());
  }

  class Engine {
    const cache: BalanceCache
    var processed: nat

    constructor (cache: BalanceCache)
      ensures this.cache == cache && processed == 0
    {
      this.cache := cache;
      processed := 0;
    }

    method ProcessTransaction(tx: Transaction, currentBlock: nat) returns (ok: bool)
      requires cache.Valid()
      modifies this, cache, cache.entries
      ensures cache.Valid()
      ensures ok <==> Accepted(Read(old(cache.entries[..]), tx.Sender()), tx, currentBlock)
      ensures !ok ==> cache.entries[..] == old(cache.entries[..])
      ensures cache.entries[..] == SettledTable(old(cache.entries[..]), tx, currentBlock)
      ensures processed == if ok then (old(processed) + 1) % TWO_TO_THE_64 else old(processed)
    {
      ghost var slots := cache.entries[..];
      var balance := cache.Get(tx.Sender());
      assert cache.entries[..] == slots;
      ok := Accepted(balance, tx, currentBlock);
      if !ok { return; }
      cache.Update(tx.Sender(), Negated(tx.TotalCost()));
      cache.Update(tx.Recipient(), tx.amount);
      processed := (processed + 1) % TWO_TO_THE_64;
    }
  }

  // ----- Accounting -----

  ghost function OfToken(m: map<Key, nat>, token: uint32): map<Key, int> {
    map k | k in m && k.token == token :: m[k]
  }

  /** The total of one token over all balances held. */
  ghost function Total(m: map<Key, nat>, token: uint32): int {
    Sum(OfToken(m, token))
  }

  lemma TotalUpdate(m: map<Key, nat>, token: uint32, key: Key, v: nat)
    ensures Total(m[key := v], token) ==
            Total(m, token) + if key.token == token then v - Lookup(m, key) else 0
  {
    var before, after := OfToken(m, token), OfToken(m[key := v], token);
    if key.token == token {
      assert after == before[key := v];
      SumUpdate(before, key, v);
    } else {
      assert after == before;
    }
  }

  lemma TotalBounds(m: map<Key, nat>, a: Key, b: Key)
    requires a.token == b.token && a != b
    ensures Lookup(m, a) + Lookup(m, b) <= Total(m, a.token)
  {
    var t := OfToken(m, a.token);
    SumNonNegative(t);
    if a in m && b in m {
      TwoAtMostSum(t, a, b);
    } else if a in m {
      OneAtMostSum(t, a);
    } else if b in m {
      OneAtMostSum(t, b);
    }
  }

  ghost predicate WellFormed(m: map<Key, nat>, capacity: nat) {
    |m| <= capacity && forall k :: k in m ==> m[k] < TWO_TO_THE_64
  }

  lemma WrapDown(b: nat, c: nat)
    requires c <= b < TWO_TO_THE_64
    ensures (b + Negated(c)) % TWO_TO_THE_64 == b - c
  {
    if c > 0 {
      assert b + Negated(c) == (b - c) + TWO_TO_THE_64;
    }
  }

  /** Debiting a covered cost takes exactly the cost off one balance, without wrapping. */
  lemma DebitExact(m: map<Key, nat>, capacity: nat, key: Key, cost: nat)
    requires WellFormed(m, capacity) && cost <= Lookup(m, key)
    ensures var m' := Updated(m, capacity, key, Negated(cost));
            WellFormed(m', capacity) &&
            Lookup(m', key) == Lookup(m, key) - cost &&
            (forall k :: k != key ==> Lookup(m', k) == Lookup(m, k)) &&
            (cost > 0 ==> m'.Keys == m.Keys && |m'| == |m|) &&
            (forall t :: Total(m', t) == Total(m, t) - if t == key.token then cost else 0)
  {
    var m' := Updated(m, capacity, key, Negated(cost));
    if key in m {
      WrapDown(m[key], cost);
      assert m'.Keys == m.Keys;
    }
    TotalsUpdated(m, capacity, key, Negated(cost));
  }

  lemma TotalsUpdated(m: map<Key, nat>, capacity: nat, key: Key, delta: nat)
    ensures var m' := Updated(m, capacity, key, delta);
            forall t :: Total(m', t) ==
                        Total(m, t) + if t == key.token then Lookup(m', key) - Lookup(m, key) else 0
  {
    var m' := Updated(m, capacity, key, delta);
    forall t
      ensures Total(m', t) == Total(m, t) + if t == key.token then Lookup(m', key) - Lookup(m, key) else 0
    {
      if key in m || |m| < capacity {
        TotalUpdate(m, t, key, m'[key]);
      }
    }
  }

  /** Crediting adds the amount to one balance if the key is held or a slot is free, else is lost. */
  lemma CreditExact(m: map<Key, nat>, capacity: nat, key: Key, amount: nat)
    requires WellFormed(m, capacity) && Lookup(m, key) + amount < TWO_TO_THE_64
    ensures var m' := Updated(m, capacity, key, amount);
            var gained := if key in m || |m| < capacity then amount else 0;
            WellFormed(m', capacity) &&
            Lookup(m', key) == Lookup(m, key) + gained &&
            (forall k :: k != key ==> Lookup(m', k) == Lookup(m, k)) &&
            (forall t :: Total(m', t) == Total(m, t) + if t == key.token then gained else 0)
  {
    TotalsUpdated(m, capacity, key, amount);
  }

  /** The recipient's credit is not lost: it is held, a slot is free, or there is nothing to credit. */
  predicate Creditable(m: map<Key, nat>, capacity: nat, tx: Transaction) {
    tx.Recipient() in m || |m| < capacity || tx.amount == 0
  }

  /** An accepted transaction takes its cost off the sender and adds the amount to the recipient,
      and touches nothing else. The token's total falls by fee and gas exactly when the recipient
      can be credited. */
  lemma SettlementExact(m: map<Key, nat>, capacity: nat, tx: Transaction, currentBlock: nat)
    requires WellFormed(m, capacity) && tx.CostFits() && Total(m, tx.token) < TWO_TO_THE_64
    requires Accepted(Lookup(m, tx.Sender()), tx, currentBlock)
    ensures var m' := Moved(m, capacity, tx);
            var credit := if Creditable(m, capacity, tx) then tx.amount else 0;
            WellFormed(m', capacity) &&
            (Total(m', tx.token) == Total(m, tx.token) - tx.fee - tx.GasCost() <==> Creditable(m, capacity, tx)) &&
            (forall t :: Total(m', t) == Total(m, t) - if t == tx.token then tx.TotalCost() - credit else 0) &&
            (forall k :: k != tx.Sender() && k != tx.Recipient() ==> Lookup(m', k) == Lookup(m, k)) &&
            (tx.from != tx.to ==>
               Lookup(m', tx.Sender()) == Lookup(m, tx.Sender()) - tx.TotalCost() &&
               Lookup(m', tx.Recipient()) == Lookup(m, tx.Recipient()) + credit) &&
            (tx.from == tx.to ==>
               Lookup(m', tx.Sender()) == Lookup(m, tx.Sender()) - tx.fee - tx.GasCost())
  {
    var s, r, cost := tx.Sender(), tx.Recipient(), tx.TotalCost();
    var m1 := Updated(m, capacity, s, Negated(cost));
    assert cost == tx.amount + tx.fee + tx.GasCost();
    DebitExact(m, capacity, s, cost);
    if s != r {
      TotalBounds(m, s, r);
    }
    CreditExact(m1, capacity, r, tx.amount);
    if tx.amount > 0 {
      assert r in m1 || |m1| < capacity <==> Creditable(m, capacity, tx);
    }
  }

  function Run(m: map<Key, nat>, capacity: nat, txs: seq<(Transaction, nat)>): map<Key, nat>
    decreases |txs|
  {
    if txs == [] then m
    else Run(Settled(m, capacity, txs[0].0, txs[0].1), capacity, txs[1..])
  }

  /** Fee and gas are far below 2^64, so the cost covers the amount exactly when the sum does not wrap. */
  lemma CostCoversIff(tx: Transaction)
    ensures tx.amount <= tx.TotalCost() <==> tx.CostFits()
  {
    assert tx.GasCost() <= (TWO_TO_THE_64 - 1) / 1_000_000_000;
  }

  /** The credit of an accepted transaction finds its slot: the debit of a sender that is not held
      takes one too, if there is one. */
  predicate SlotLeft(m: map<Key, nat>, capacity: nat, tx: Transaction) {
    tx.Recipient() in m || (if tx.from == tx.to || tx.Sender() in m then |m| < capacity else |m| + 1 < capacity)
  }

  /** The recipient's balance after the debit. */
  function BeforeCredit(m: map<Key, nat>, tx: Transaction): int {
    Lookup(m, tx.Recipient()) - if tx.from == tx.to then tx.TotalCost() else 0
  }

  /** An accepted transaction raises its token's total if and only if its wrapped cost is below
      the amount, the credit finds a slot, and the recipient's balance does not wrap. */
  lemma MintsIff(m: map<Key, nat>, capacity: nat, tx: Transaction, currentBlock: nat)
    requires WellFormed(m, capacity) && Accepted(Lookup(m, tx.Sender()), tx, currentBlock)
    ensures Total(Moved(m, capacity, tx), tx.token) > Total(m, tx.token) <==>
            !tx.CostFits() && SlotLeft(m, capacity, tx) && BeforeCredit(m, tx) + tx.amount < TWO_TO_THE_64
    ensures !tx.CostFits() <==> tx.TotalCost() < tx.amount
  {
    var s, r, cost := tx.Sender(), tx.Recipient(), tx.TotalCost();
    var m1 := Updated(m, capacity, s, Negated(cost));
    CostCoversIff(tx);
    DebitExact(m, capacity, s, cost);
    DebitedSlots(m, capacity, tx);
    assert BeforeCredit(m, tx) == Lookup(m1, r);
    Gain(m1, capacity, r, tx.amount);
  }

  lemma DebitedSlots(m: map<Key, nat>, capacity: nat, tx: Transaction)
    requires WellFormed(m, capacity) && tx.TotalCost() <= Lookup(m, tx.Sender())
    ensures var m1 := Updated(m, capacity, tx.Sender(), Negated(tx.TotalCost()));
            (tx.Recipient() in m1 || |m1| < capacity) <==> SlotLeft(m, capacity, tx)
  {
  }

  /** A credit raises the token's total by its amount, unless it finds no slot or wraps. */
  lemma Gain(m: map<Key, nat>, capacity: nat, key: Key, amount: uint64)
    requires WellFormed(m, capacity)
    ensures var m' := Updated(m, capacity, key, amount);
            Total(m', key.token) <= Total(m, key.token) + amount &&
            (amount > 0 ==>
              (Total(m', key.token) == Total(m, key.token) + amount <==>
               (key in m || |m| < capacity) && Lookup(m, key) + amount < TWO_TO_THE_64)) &&
            (Total(m', key.token) < Total(m, key.token) + amount ==> Total(m', key.token) <= Total(m, key.token))
  {
    TotalsUpdated(m, capacity, key, amount);
  }

  lemma UpdatedWellFormed(m: map<Key, nat>, capacity: nat, key: Key, delta: uint64)
    requires WellFormed(m, capacity)
    ensures WellFormed(Updated(m, capacity, key, delta), capacity)
  {
  }

  lemma OtherTotalsStay(m: map<Key, nat>, capacity: nat, tx: Transaction)
    ensures forall t :: t != tx.token ==> Total(Moved(m, capacity, tx), t) == Total(m, t)
  {
    var debit := Negated(tx.TotalCost());
    TotalsUpdated(m, capacity, tx.Sender(), debit);
    TotalsUpdated(Updated(m, capacity, tx.Sender(), debit), capacity, tx.Recipient(), tx.amount);
  }

  /** No run of settlements whose costs cover their amounts, accepted or refused, with or without
      free slots, ever raises the total of any token. */
  lemma {:induction false} NeverMints(m: map<Key, nat>, capacity: nat, txs: seq<(Transaction, nat)>)
    requires WellFormed(m, capacity)
    requires forall i :: 0 <= i < |txs| ==> txs[i].0.amount <= txs[i].0.TotalCost()
    ensures forall t :: Total(Run(m, capacity, txs), t) <= Total(m, t)
    decreases |txs|
  {
    if txs != [] {
      var (tx, block) := txs[0];
      assert tx.amount <= tx.TotalCost();
      var m' := Settled(m, capacity, tx, block);
      if Accepted(Lookup(m, tx.Sender()), tx, block) {
        CostCoversIff(tx);
        MintsIff(m, capacity, tx, block);
        OtherTotalsStay(m, capacity, tx);
        UpdatedWellFormed(m, capacity, tx.Sender(), Negated(tx.TotalCost()));
        UpdatedWellFormed(Updated(m, capacity, tx.Sender(), Negated(tx.TotalCost())), capacity, tx.Recipient(), tx.amount);
      }
      NeverMints(m', capacity, txs[1..]);
    }
  }

  /** A cost that wraps to 0 creates the amount out of nothing. */
  lemma WrappedCostMints(from: Address, to: Address, token: uint32)
    requires from != to
    ensures var tx := Transaction(from, to, TWO_TO_THE_64 - 1, token, 1, 0, 0, 0);
            Accepted(0, tx, 7) && Lookup(Moved(map[], 2, tx), tx.Recipient()) == TWO_TO_THE_64 - 1
  {
    var tx := Transaction(from, to, TWO_TO_THE_64 - 1, token, 1, 0, 0, 0);
    assert tx.GasCost() == 0;
    var m1 := Updated(map[], 2, tx.Sender(), 0);
    assert m1 == map[tx.Sender() := 0];
  }
}
