/** The banking chain: blocks of transfers with balances and indexes kept alongside. Amounts are
    integers; hashing, signature checking and the random nonces are parameters. */
module Blockchain {
  import opened Options
  import opened Words
  import opened MapSums
  import opened MerkleTrees

  const DIFFICULTY := 4
  const MAX_ATTEMPTS := 1_000_000

  datatype Transaction = Transaction(
    txId: string, from: string, to: string, amount: int, timestamp: nat, nonce: nat, signature: string, hash: string)

  datatype Header = Header(
    index: int, previousHash: string, timestamp: nat, merkleRoot: string, nonce: nat, validator: string,
    difficulty: nat, version: string)

  datatype Block = Block(header: Header, transactions: seq<Transaction>, hash: string)

  datatype Env = Env(sha1: HashFn, headerHash: Header -> string, verify: Transaction -> bool)

  datatype Ledger = Ledger(
    chain: seq<Block>, balances: map<string, int>, accountTransactions: map<string, seq<string>>,
    blockIndex: map<string, Block>)

  /** A size narrowed to a 32-bit int. */
  function Int32(n: nat): int {
    (n + 0x8000_0000) % TWO_TO_THE_32 - 0x8000_0000
  }

  // ----- Transfers -----

  function Balance(m: map<string, int>, a: string): int {
    if a in m then m[a] else 0
  }

  function Transfer(m: map<string, int>, tx: Transaction): map<string, int> {
    var debited := m[tx.from := Balance(m, tx.from) - tx.amount];
    debited[tx.to := Balance(debited, tx.to) + tx.amount]
  }

  function Post(m: map<string, int>, txs: seq<Transaction>): map<string, int>
    decreases |txs|
  {
    if txs == [] then m else Post(Transfer(m, txs[0]), txs[1..])
  }

  /** Checked in order on a scratch copy of the balances. */
  predicate AllValid(env: Env, m: map<string, int>, txs: seq<Transaction>)
    decreases |txs|
  {
    txs == [] ||
    (env.verify(txs[0]) && Balance(m, txs[0].from) >= txs[0].amount && AllValid(env, Transfer(m, txs[0]), txs[1..]))
  }

  function Entries(lists: map<string, seq<string>>, a: string): seq<string> {
    if a in lists then lists[a] else []
  }

  /** The sender's list first, then the recipient's. */
  function Enter(lists: map<string, seq<string>>, tx: Transaction): map<string, seq<string>> {
    var l := lists[tx.from := Entries(lists, tx.from) + [tx.txId]];
    l[tx.to := Entries(l, tx.to) + [tx.txId]]
  }

  function EnterAll(lists: map<string, seq<string>>, txs: seq<Transaction>): map<string, seq<string>>
    decreases |txs|
  {
    if txs == [] then lists else EnterAll(Enter(lists, txs[0]), txs[1..])
  }

  // ----- Blocks -----

  function TxHashes(txs: seq<Transaction>): (h: seq<string>)
    ensures |h| == |txs|
    decreases |txs|
  {
    if txs == [] then [] else TxHashes(txs[..|txs| - 1]) + [txs[|txs| - 1].hash]
  }

  function MerkleRootOf(env: Env, txs: seq<Transaction>): string {
    Root(env.sha1, TxHashes(txs))
  }

  predicate LeadingZeros(hash: string, n: nat) {
    n <= |hash| && forall i :: 0 <= i < n ==> hash[i] == '0'
  }

  /** The first nonce from the given attempt on whose hash meets the target. */
  function Mined(env: Env, header: Header, nonces: nat -> nat, attempt: nat): Option<Header>
    requires attempt <= MAX_ATTEMPTS
    decreases MAX_ATTEMPTS - attempt
  {
    if attempt == MAX_ATTEMPTS then None
    else
      var h := header.(nonce := nonces(attempt), difficulty := DIFFICULTY);
      if LeadingZeros(env.headerHash(h), DIFFICULTY) then Some(h) else Mined(env, header, nonces, attempt + 1)
  }

  function Appended(s: Ledger, b: Block): Ledger {
    Ledger(s.chain + [b], Post(s.balances, b.transactions), EnterAll(s.accountTransactions, b.transactions),
           s.blockIndex[b.hash := b])
  }

  function NewHeader(env: Env, s: Ledger, txs: seq<Transaction>, validator: string, now: nat): Header
    requires s.chain != []
  {
    Header(Int32(|s.chain|), s.chain[|s.chain| - 1].hash, now, MerkleRootOf(env, txs), 0, validator, DIFFICULTY, "")
  }

  function AfterAdd(env: Env, s: Ledger, txs: seq<Transaction>, validator: string, now: nat, nonces: nat -> nat): Ledger
    requires s.chain != []
  {
    var mined := Mined(env, NewHeader(env, s, txs, validator, now), nonces, 0);
    if AllValid(env, s.balances, txs) && mined.Some?
    then Appended(s, Block(mined.value, txs, env.headerHash(mined.value))) else s
  }

  predicate DirectOk(env: Env, s: Ledger, b: Block)
    requires s.chain != []
  {
    b.header.index == Int32(|s.chain|) && b.header.previousHash == s.chain[|s.chain| - 1].hash &&
    env.headerHash(b.header) == b.hash && AllValid(env, s.balances, b.transactions)
  }

  function AfterDirect(env: Env, s: Ledger, b: Block): Ledger
    requires s.chain != []
  {
    if DirectOk(env, s, b) then Appended(s, b) else s
  }

  /** Looking up an unknown account enters it with balance 0. */
  function Touched(s: Ledger, account: string): Ledger {
    s.(balances := s.balances[account := Balance(s.balances, account)])
  }

  function Genesis(env: Env): Block {
    var h := Header(0, env.sha1("GENESIS"), 0, env.sha1("GENESIS_BLOCK"), 0, "SYSTEM", DIFFICULTY, "");
    Block(h, [], env.headerHash(h))
  }

  function Initial(env: Env, start: map<string, int>): Ledger {
    Ledger([Genesis(env)], start, map[], map[])
  }

  // ----- Replay: what the derived state must agree with -----

  function AllTransactions(chain: seq<Block>): seq<Transaction>
    decreases |chain|
  {
    if chain == [] then []
    else AllTransactions(chain[..|chain| - 1]) + chain[|chain| - 1].transactions
  }

  function Received(txs: seq<Transaction>, a: string): int
    decreases |txs|
  {
    if txs == [] then 0 else (if txs[0].to == a then txs[0].amount else 0) + Received(txs[1..], a)
  }

  function Sent(txs: seq<Transaction>, a: string): int
    decreases |txs|
  {
    if txs == [] then 0 else (if txs[0].from == a then txs[0].amount else 0) + Sent(txs[1..], a)
  }

  function Mentions(tx: Transaction, a: string): seq<string> {
    (if tx.from == a then [tx.txId] else []) + (if tx.to == a then [tx.txId] else [])
  }

  /** The identifiers of the transactions of an account in chain order, twice for a transfer to itself. */
  function Projection(txs: seq<Transaction>, a: string): seq<string>
    decreases |txs|
  {
    if txs == [] then []
    else Mentions(txs[0], a) + Projection(txs[1..], a)
  }

  /** The last block after the genesis block that has the hash. */
  function LastWithHash(chain: seq<Block>, hash: string): Option<Block>
    decreases |chain|
  {
    if |chain| <= 1 then None
    else if chain[|chain| - 1].hash == hash then Some(chain[|chain| - 1])
    else LastWithHash(chain[..|chain| - 1], hash)
  }

  lemma {:induction false} PostBalance(m: map<string, int>, txs: seq<Transaction>, a: string)
    ensures Balance(Post(m, txs), a) == Balance(m, a) + Received(txs, a) - Sent(txs, a)
    decreases |txs|
  {
    if txs != [] { PostBalance(Transfer(m, txs[0]), txs[1..], a); }
  }

  lemma TransferBalances(m: map<string, int>, tx: Transaction)
    ensures forall a :: Balance(Transfer(m, tx), a) ==
                        Balance(m, a) + (if tx.to == a then tx.amount else 0) - (if tx.from == a then tx.amount else 0)
  {
  }

  lemma TransferKeepsSum(m: map<string, int>, tx: Transaction)
    ensures Sum(Transfer(m, tx)) == Sum(m)
  {
    var debited := m[tx.from := Balance(m, tx.from) - tx.amount];
    SumUpdate(m, tx.from, Balance(m, tx.from) - tx.amount);
    SumUpdate(debited, tx.to, Balance(debited, tx.to) + tx.amount);
  }

  lemma {:induction false} PostKeepsSum(m: map<string, int>, txs: seq<Transaction>)
    ensures Sum(Post(m, txs)) == Sum(m)
    decreases |txs|
  {
    if txs != [] {
      TransferKeepsSum(m, txs[0]);
      PostKeepsSum(Transfer(m, txs[0]), txs[1..]);
    }
  }

  lemma EnterExtends(lists: map<string, seq<string>>, tx: Transaction, a: string)
    ensures Entries(Enter(lists, tx), a) == Entries(lists, a) + Mentions(tx, a)
  {
  }

  lemma {:induction false} EnterAllProjects(lists: map<string, seq<string>>, txs: seq<Transaction>, a: string)
    ensures Entries(EnterAll(lists, txs), a) == Entries(lists, a) + Projection(txs, a)
    decreases |txs|
  {
    if txs != [] {
      EnterExtends(lists, txs[0], a);
      EnterAllProjects(Enter(lists, txs[0]), txs[1..], a);
      ConcatAssociates(Entries(lists, a), Mentions(txs[0], a), Projection(txs[1..], a));
    }
  }

  lemma {:induction false} ReceivedConcat(x: seq<Transaction>, y: seq<Transaction>, a: string)
    ensures Received(x + y, a) == Received(x, a) + Received(y, a)
    ensures Sent(x + y, a) == Sent(x, a) + Sent(y, a)
    ensures Projection(x + y, a) == Projection(x, a) + Projection(y, a)
    decreases |x|
  {
    if x == [] {
      assert x + y == y;
    } else {
      assert (x + y)[1..] == x[1..] + y;
      ReceivedConcat(x[1..], y, a);
    }
  }

  // ----- Exactly what validation accepts -----

  /** Transaction k is signed and, after those before it, covered by its sender's balance. */
  predicate GoodAt(env: Env, m: map<string, int>, txs: seq<Transaction>, k: nat)
    requires k < |txs|
  {
    env.verify(txs[k]) && Balance(Post(m, txs[..k]), txs[k].from) >= txs[k].amount
  }

  lemma GoodAtNext(env: Env, m: map<string, int>, txs: seq<Transaction>, k: nat)
    requires 0 < k < |txs|
    ensures GoodAt(env, m, txs, k) <==> GoodAt(env, Transfer(m, txs[0]), txs[1..], k - 1)
  {
    assert txs[..k][1..] == txs[1..][..k - 1];
  }

  lemma GoodAtFirst(env: Env, m: map<string, int>, txs: seq<Transaction>)
    requires txs != []
    ensures GoodAt(env, m, txs, 0) <==> env.verify(txs[0]) && Balance(m, txs[0].from) >= txs[0].amount
  {
    assert txs[..0] == [];
  }

  /** A list is accepted if and only if every transaction is signed and covered when its turn comes. */
  lemma {:induction false} AllValidIff(env: Env, m: map<string, int>, txs: seq<Transaction>)
    ensures AllValid(env, m, txs) <==> forall k :: 0 <= k < |txs| ==> GoodAt(env, m, txs, k)
    decreases |txs|
  {
    if txs != [] {
      var m', rest := Transfer(m, txs[0]), txs[1..];
      AllValidIff(env, m', rest);
      GoodAtFirst(env, m, txs);
      if AllValid(env, m, txs) {
        forall k | 0 <= k < |txs|
          ensures GoodAt(env, m, txs, k)
        {
          if k > 0 {
            GoodAtNext(env, m, txs, k);
          }
        }
      }
      if forall k :: 0 <= k < |txs| ==> GoodAt(env, m, txs, k) {
        assert GoodAt(env, m, txs, 0);
        forall k | 0 <= k < |rest|
          ensures GoodAt(env, m', rest, k)
        {
          GoodAtNext(env, m, txs, k + 1);
        }
      }
    }
  }

  predicate AllSigned(env: Env, txs: seq<Transaction>) {
    forall k :: 0 <= k < |txs| ==> env.verify(txs[k])
  }

  lemma ValidIsSigned(env: Env, m: map<string, int>, txs: seq<Transaction>)
    requires AllValid(env, m, txs)
    ensures AllSigned(env, txs)
  {
    AllValidIff(env, m, txs);
    forall k | 0 <= k < |txs|
      ensures env.verify(txs[k])
    {
      assert GoodAt(env, m, txs, k);
    }
  }

  /** A transaction that does not verify, or is not covered, makes both ways of adding a block refuse
      the whole list and change nothing. */
  lemma BadTransactionRefused(env: Env, s: Ledger, txs: seq<Transaction>, k: nat, validator: string, now: nat,
                              nonces: nat -> nat, header: Header, hash: string)
    requires s.chain != [] && k < |txs| && !GoodAt(env, s.balances, txs, k)
    ensures AfterAdd(env, s, txs, validator, now, nonces) == s == AfterDirect(env, s, Block(header, txs, hash))
  {
    AllValidIff(env, s.balances, txs);
  }

  // ----- Exactly when validation keeps balances from going negative -----

  ghost predicate Solvent(m: map<string, int>) {
    forall a :: Balance(m, a) >= 0
  }

  /** The recipient can bear the amount; only a negative amount can ask something of it. */
  predicate Bearable(m: map<string, int>, tx: Transaction) {
    tx.from == tx.to || Balance(m, tx.to) + tx.amount >= 0
  }

  /** A transfer its sender can cover leaves no balance negative if and only if its recipient can bear it. */
  lemma TransferOverdrawsIff(m: map<string, int>, tx: Transaction)
    requires Solvent(m) && Balance(m, tx.from) >= tx.amount
    ensures Solvent(Transfer(m, tx)) <==> Bearable(m, tx)
  {
    var m' := Transfer(m, tx);
    TransferBalances(m, tx);
    if Solvent(m') {
      assert Balance(m', tx.to) >= 0;
    }
  }

  /** Every transfer of a list is bearable when its turn comes. */
  predicate AllBearable(m: map<string, int>, txs: seq<Transaction>)
    decreases |txs|
  {
    txs == [] || (Bearable(m, txs[0]) && AllBearable(Transfer(m, txs[0]), txs[1..]))
  }

  /** No balance is negative at any moment of posting a list. */
  ghost predicate SolventThroughout(m: map<string, int>, txs: seq<Transaction>) {
    forall k :: 0 <= k <= |txs| ==> Solvent(Post(m, txs[..k]))
  }

  lemma ThroughoutNext(m: map<string, int>, txs: seq<Transaction>)
    requires txs != []
    ensures SolventThroughout(m, txs) <==> Solvent(m) && SolventThroughout(Transfer(m, txs[0]), txs[1..])
  {
    var m', rest := Transfer(m, txs[0]), txs[1..];
    assert txs[..0] == [];
    forall k | 0 <= k <= |rest|
      ensures Post(m', rest[..k]) == Post(m, txs[..k + 1])
    {
      assert txs[..k + 1][1..] == rest[..k];
    }
    if SolventThroughout(m, txs) {
      assert Solvent(Post(m, txs[..0]));
      forall k | 0 <= k <= |rest|
        ensures Solvent(Post(m', rest[..k]))
      {
        assert Solvent(Post(m, txs[..k + 1]));
      }
    }
    if Solvent(m) && SolventThroughout(m', rest) {
      forall k | 0 <= k <= |txs|
        ensures Solvent(Post(m, txs[..k]))
      {
        if k > 0 {
          assert Solvent(Post(m', rest[..k - 1]));
        }
      }
    }
  }

  /** A validated list never overdraws an account, at any moment, if and only if every recipient can
      bear its transfer. */
  lemma {:induction false} ValidOverdrawsIff(env: Env, m: map<string, int>, txs: seq<Transaction>)
    requires AllValid(env, m, txs) && Solvent(m)
    ensures SolventThroughout(m, txs) <==> AllBearable(m, txs)
    decreases |txs|
  {
    if txs == [] {
      assert txs[..0] == [];
    } else {
      var m' := Transfer(m, txs[0]);
      TransferOverdrawsIff(m, txs[0]);
      ThroughoutNext(m, txs);
      if Solvent(m') {
        ValidOverdrawsIff(env, m', txs[1..]);
      } else {
        assert txs[1..][..0] == [];
        assert Post(m', txs[1..][..0]) == m';
      }
    }
  }

  predicate NonNegativeAmounts(txs: seq<Transaction>) {
    forall i :: 0 <= i < |txs| ==> txs[i].amount >= 0
  }

  lemma {:induction false} NonNegativeBearable(env: Env, m: map<string, int>, txs: seq<Transaction>)
    requires AllValid(env, m, txs) && Solvent(m) && NonNegativeAmounts(txs)
    ensures AllBearable(m, txs)
    decreases |txs|
  {
    if txs != [] {
      assert txs[0].amount >= 0;
      assert Balance(m, txs[0].to) >= 0;
      TransferOverdrawsIff(m, txs[0]);
      NonNegativeBearable(env, Transfer(m, txs[0]), txs[1..]);
    }
  }

  lemma LastMoment(m: map<string, int>, txs: seq<Transaction>)
    requires SolventThroughout(m, txs)
    ensures Solvent(Post(m, txs))
  {
    assert txs[..|txs|] == txs;
    assert Solvent(Post(m, txs[..|txs|]));
  }

  /** A validated list of non-negative transfers overdraws no account. */
  lemma ValidNeverOverdraws(env: Env, m: map<string, int>, txs: seq<Transaction>)
    requires AllValid(env, m, txs) && Solvent(m) && NonNegativeAmounts(txs)
    ensures Solvent(Post(m, txs))
  {
    NonNegativeBearable(env, m, txs);
    ValidOverdrawsIff(env, m, txs);
    LastMoment(m, txs);
  }

  /** Amounts are not checked for their sign: every negative one, from anyone, passes validation on
      a fresh chain and overdraws the recipient. */
  lemma NegativeAmountOverdraws(env: Env, tx: Transaction)
    requires env.verify(tx) && tx.from != tx.to && tx.amount < 0
    ensures AllValid(env, map[], [tx]) && Balance(Post(map[], [tx]), tx.to) == tx.amount
  {
    assert [tx][1..] == [];
    assert Post(map[], [tx]) == Post(Transfer(map[], tx), []);
  }

  // ----- What every run keeps -----

  predicate LinkOk(env: Env, chain: seq<Block>, i: nat)
    requires 0 < i < |chain|
  {
    chain[i].header.previousHash == chain[i - 1].hash && env.headerHash(chain[i].header) == chain[i].hash &&
    chain[i].header.index == Int32(i)
  }

  predicate RootOk(env: Env, b: Block) {
    b.header.merkleRoot == MerkleRootOf(env, b.transactions)
  }

  ghost predicate Replayed(start: map<string, int>, s: Ledger) {
    var txs := AllTransactions(s.chain);
    && (forall a :: Balance(s.balances, a) == Balance(start, a) + Received(txs, a) - Sent(txs, a))
    && (forall a :: Entries(s.accountTransactions, a) == Projection(txs, a))
    && Sum(s.balances) == Sum(start)
    && (forall h :: (if h in s.blockIndex then Some(s.blockIndex[h]) else None) == LastWithHash(s.chain, h))
  }

  ghost predicate Invariant(env: Env, start: map<string, int>, s: Ledger) {
    && s.chain != [] && s.chain[0] == Genesis(env)
    && Replayed(start, s)
    && forall i :: 0 < i < |s.chain| ==> LinkOk(env, s.chain, i)
  }

  lemma InitialInvariant(env: Env, start: map<string, int>)
    ensures Invariant(env, start, Initial(env, start))
  {
    var chain := [Genesis(env)];
    assert chain[..0] == [];
    assert AllTransactions(chain) == [];
  }

  lemma ReplayedAppend(start: map<string, int>, s: Ledger, b: Block)
    requires s.chain != [] && Replayed(start, s)
    ensures Replayed(start, Appended(s, b))
  {
    var txs, more, s' := AllTransactions(s.chain), b.transactions, Appended(s, b);
    assert s'.chain[..|s.chain|] == s.chain;
    assert AllTransactions(s'.chain) == txs + more;
    forall a
      ensures Balance(s'.balances, a) == Balance(start, a) + Received(txs + more, a) - Sent(txs + more, a)
      ensures Entries(s'.accountTransactions, a) == Projection(txs + more, a)
    {
      PostBalance(s.balances, more, a);
      EnterAllProjects(s.accountTransactions, more, a);
      ReceivedConcat(txs, more, a);
    }
    PostKeepsSum(s.balances, more);
    IndexAppend(s, b);
  }

  lemma IndexAppend(s: Ledger, b: Block)
    requires s.chain != []
    requires forall h :: (if h in s.blockIndex then Some(s.blockIndex[h]) else None) == LastWithHash(s.chain, h)
    ensures var s' := Appended(s, b);
            forall h :: (if h in s'.blockIndex then Some(s'.blockIndex[h]) else None) == LastWithHash(s'.chain, h)
  {
    assert (s.chain + [b])[..|s.chain|] == s.chain;
  }

  lemma AppendKeeps(env: Env, start: map<string, int>, s: Ledger, b: Block)
    requires Invariant(env, start, s)
    requires b.header.previousHash == s.chain[|s.chain| - 1].hash && env.headerHash(b.header) == b.hash
    requires b.header.index == Int32(|s.chain|)
    ensures Invariant(env, start, Appended(s, b))
  {
    ReplayedAppend(start, s, b);
    var chain := Appended(s, b).chain;
    forall i | 0 < i < |chain|
      ensures LinkOk(env, chain, i)
    {
      if i < |s.chain| {
        assert LinkOk(env, s.chain, i);
      }
    }
  }

  /** Mining changes only the nonce, and finds a hash that meets the target. */
  lemma {:induction false} MinedMeetsTarget(env: Env, header: Header, nonces: nat -> nat, attempt: nat)
    requires attempt <= MAX_ATTEMPTS && Mined(env, header, nonces, attempt).Some?
    ensures var h := Mined(env, header, nonces, attempt).value;
            h == header.(nonce := h.nonce, difficulty := DIFFICULTY) &&
            LeadingZeros(env.headerHash(h), DIFFICULTY)
    decreases MAX_ATTEMPTS - attempt
  {
    if attempt < MAX_ATTEMPTS {
      var h := header.(nonce := nonces(attempt), difficulty := DIFFICULTY);
      if !LeadingZeros(env.headerHash(h), DIFFICULTY) {
        MinedMeetsTarget(env, header, nonces, attempt + 1);
      }
    }
  }

  /** Nonce k is the first of at most a million that gives a hash of four leading zeros. */
  predicate FirstNonce(env: Env, header: Header, nonces: nat -> nat, k: nat) {
    k < 1_000_000 && MeetsTarget(env, header, nonces(k)) && forall j :: 0 <= j < k ==> !MeetsTarget(env, header, nonces(j))
  }

  predicate MeetsTarget(env: Env, header: Header, nonce: nat) {
    var hash := env.headerHash(header.(nonce := nonce, difficulty := 4));
    |hash| >= 4 && hash[..4] == "0000"
  }

  lemma {:induction false} MinedFrom(env: Env, header: Header, nonces: nat -> nat, attempt: nat, k: nat)
    requires attempt <= k < MAX_ATTEMPTS && MeetsTarget(env, header, nonces(k))
    requires forall j :: attempt <= j < k ==> !MeetsTarget(env, header, nonces(j))
    ensures Mined(env, header, nonces, attempt) == Some(header.(nonce := nonces(k), difficulty := 4))
    decreases MAX_ATTEMPTS - attempt
  {
    TargetIsZeros(env, header, nonces(attempt));
    if attempt < k {
      MinedFrom(env, header, nonces, attempt + 1, k);
    }
  }

  lemma TargetIsZeros(env: Env, header: Header, nonce: nat)
    ensures MeetsTarget(env, header, nonce) <==>
            LeadingZeros(env.headerHash(header.(nonce := nonce, difficulty := DIFFICULTY)), DIFFICULTY)
  {
    var hash := env.headerHash(header.(nonce := nonce, difficulty := DIFFICULTY));
    if |hash| >= 4 {
      assert hash[..4] == [hash[0], hash[1], hash[2], hash[3]];
    }
  }

  lemma {:induction false} NoneMined(env: Env, header: Header, nonces: nat -> nat, attempt: nat)
    requires attempt <= MAX_ATTEMPTS
    requires forall j :: attempt <= j < MAX_ATTEMPTS ==> !MeetsTarget(env, header, nonces(j))
    ensures Mined(env, header, nonces, attempt) == None
    decreases MAX_ATTEMPTS - attempt
  {
    if attempt < MAX_ATTEMPTS {
      TargetIsZeros(env, header, nonces(attempt));
      NoneMined(env, header, nonces, attempt + 1);
    }
  }

  /** Mining finds the first nonce within a million that meets the target, and fails if and only if
      there is none. */
  lemma MinedIff(env: Env, header: Header, nonces: nat -> nat)
    ensures Mined(env, header, nonces, 0) == None <==>
            forall j :: 0 <= j < 1_000_000 ==> !MeetsTarget(env, header, nonces(j))
    ensures forall k :: FirstNonce(env, header, nonces, k) ==>
              Mined(env, header, nonces, 0) == Some(header.(nonce := nonces(k), difficulty := 4))
  {
    forall k | FirstNonce(env, header, nonces, k)
      ensures Mined(env, header, nonces, 0) == Some(header.(nonce := nonces(k), difficulty := 4))
    {
      MinedFrom(env, header, nonces, 0, k);
    }
    if forall j :: 0 <= j < 1_000_000 ==> !MeetsTarget(env, header, nonces(j)) {
      NoneMined(env, header, nonces, 0);
    } else {
      var j :| 0 <= j < 1_000_000 && MeetsTarget(env, header, nonces(j));
      var k := FirstMeeting(env, header, nonces, j);
      MinedFrom(env, header, nonces, 0, k);
    }
  }

  lemma {:induction false} FirstMeeting(env: Env, header: Header, nonces: nat -> nat, j: nat) returns (k: nat)
    requires MeetsTarget(env, header, nonces(j))
    ensures k <= j && MeetsTarget(env, header, nonces(k)) && forall i :: 0 <= i < k ==> !MeetsTarget(env, header, nonces(i))
    decreases j
  {
    if i :| 0 <= i < j && MeetsTarget(env, header, nonces(i)) {
      k := FirstMeeting(env, header, nonces, i);
    } else {
      k := j;
    }
  }

  /** What addBlock appends: the given transactions under the hash of the block before, their root, and
      the hash of the header it mined. */
  lemma AddedBlock(env: Env, s: Ledger, txs: seq<Transaction>, validator: string, now: nat, nonces: nat -> nat, k: nat)
    requires s.chain != [] && forall j :: 0 <= j < |txs| ==> GoodAt(env, s.balances, txs, j)
    requires FirstNonce(env, NewHeader(env, s, txs, validator, now), nonces, k)
    ensures var s' := AfterAdd(env, s, txs, validator, now, nonces);
            s'.chain != [] && s'.chain[..|s'.chain| - 1] == s.chain &&
            var b := s'.chain[|s'.chain| - 1];
            b.transactions == txs && b.hash == env.headerHash(b.header) && s'.balances == Post(s.balances, txs) &&
            b.hash in s'.blockIndex && s'.blockIndex[b.hash] == b &&
            b.header == Header(Int32(|s.chain|), s.chain[|s.chain| - 1].hash, now, Root(env.sha1, TxHashes(txs)),
                               nonces(k), validator, 4, "")
  {
    AllValidIff(env, s.balances, txs);
    MinedIff(env, NewHeader(env, s, txs, validator, now), nonces);
  }

  /** A direct block is taken as it is if and only if it links to the last one, hashes to its hash and
      all its transactions are signed and covered. */
  lemma DirectIff(env: Env, s: Ledger, b: Block)
    requires s.chain != [] && |s.chain| < 0x8000_0000
    ensures AfterDirect(env, s, b) ==
            (if b.header.index == |s.chain| && b.header.previousHash == s.chain[|s.chain| - 1].hash &&
                b.hash == env.headerHash(b.header) &&
                (forall k :: 0 <= k < |b.transactions| ==> GoodAt(env, s.balances, b.transactions, k))
             then Ledger(s.chain + [b], Post(s.balances, b.transactions), EnterAll(s.accountTransactions, b.transactions),
                         s.blockIndex[b.hash := b])
             else s)
  {
    AllValidIff(env, s.balances, b.transactions);
    SmallInt32(|s.chain|);
  }

  lemma SmallInt32(n: nat)
    requires n < 0x8000_0000
    ensures Int32(n) == n
  {
  }

  lemma {:induction false} TxHashesAt(txs: seq<Transaction>, k: nat)
    requires k < |txs|
    ensures TxHashes(txs)[k] == txs[k].hash
    decreases |txs|
  {
    if k < |txs| - 1 { TxHashesAt(txs[..|txs| - 1], k); }
  }

  // ----- Tampering -----

  /** The last position at which two chains differ in their headers, 0 if there is none. */
  function LastDifference(a: seq<Block>, b: seq<Block>, i: nat): (d: nat)
    requires i < |a| && i < |b|
    ensures d <= i
    decreases i
  {
    if i == 0 || a[i].header != b[i].header then i else LastDifference(a, b, i - 1)
  }

  /** Two verified chains with the same hash at position i agree in all headers and hashes up to it, or
      differ first, seen from there, at two different headers with the same hash. */
  lemma {:induction false} TamperEvident(env: Env, a: seq<Block>, b: seq<Block>, i: nat)
    requires ChainOk(env, a) && ChainOk(env, b) && i < |a| && i < |b| && a[i].hash == b[i].hash
    ensures var d := LastDifference(a, b, i);
            if d == 0 then forall j :: 0 < j <= i ==> a[j].header == b[j].header && a[j].hash == b[j].hash
            else a[d].header != b[d].header && env.headerHash(a[d].header) == env.headerHash(b[d].header)
    decreases i
  {
    if i > 0 {
      assert LinkOk(env, a, i) && LinkOk(env, b, i);
      if a[i].header == b[i].header {
        TamperEvident(env, a, b, i - 1);
      }
    }
  }

  /** What a verified chain shows: each block names the hash of the one before, has the hash of its header
      and its own position, and the root of the hashes of its transactions. */
  lemma ChainOkIff(env: Env, chain: seq<Block>)
    requires |chain| <= 0x8000_0000
    ensures ChainOk(env, chain) <==>
            forall i :: 0 < i < |chain| ==>
              chain[i].header.previousHash == chain[i - 1].hash && chain[i].hash == env.headerHash(chain[i].header) &&
              chain[i].header.index == i && chain[i].header.merkleRoot == Root(env.sha1, TxHashes(chain[i].transactions))
  {
    forall i | 0 < i < |chain|
      ensures Int32(i) == i
    {
      SmallInt32(i);
    }
  }

  lemma AddBlockKeeps(env: Env, start: map<string, int>, s: Ledger, txs: seq<Transaction>, validator: string,
                      now: nat, nonces: nat -> nat)
    requires Invariant(env, start, s)
    ensures var s' := AfterAdd(env, s, txs, validator, now, nonces);
            Invariant(env, start, s') && (s' != s ==> RootOk(env, s'.chain[|s'.chain| - 1]))
  {
    var header := NewHeader(env, s, txs, validator, now);
    var mined := Mined(env, header, nonces, 0);
    if AllValid(env, s.balances, txs) && mined.Some? {
      MinedMeetsTarget(env, header, nonces, 0);
      AppendKeeps(env, start, s, Block(mined.value, txs, env.headerHash(mined.value)));
    }
  }

  // ----- Runs -----

  datatype Op =
    | OpAdd(transactions: seq<Transaction>, validator: string, now: nat, nonces: nat -> nat)
    | OpDirect(block: Block)
    | OpBalance(account: string)

  function Apply(env: Env, s: Ledger, op: Op): (s': Ledger)
    requires s.chain != []
    ensures s'.chain != []
  {
    match op
    case OpAdd(txs, validator, now, nonces) => AfterAdd(env, s, txs, validator, now, nonces)
    case OpDirect(b) => AfterDirect(env, s, b)
    case OpBalance(a) => Touched(s, a)
  }

  function Run(env: Env, s: Ledger, ops: seq<Op>): (s': Ledger)
    requires s.chain != []
    ensures s'.chain != []
    decreases |ops|
  {
    if ops == [] then s else Apply(env, Run(env, s, ops[..|ops| - 1]), ops[|ops| - 1])
  }

  lemma TouchedKeeps(env: Env, start: map<string, int>, s: Ledger, a: string)
    requires Invariant(env, start, s)
    ensures Invariant(env, start, Touched(s, a))
  {
    SumUpdate(s.balances, a, Balance(s.balances, a));
  }

  lemma ApplyKeeps(env: Env, start: map<string, int>, s: Ledger, op: Op)
    requires Invariant(env, start, s)
    ensures Invariant(env, start, Apply(env, s, op))
  {
    match op
    case OpAdd(txs, validator, now, nonces) => AddBlockKeeps(env, start, s, txs, validator, now, nonces);
    case OpDirect(b) =>
      if DirectOk(env, s, b) {
        AppendKeeps(env, start, s, b);
      }
    case OpBalance(a) => TouchedKeeps(env, start, s, a);
  }

  /** After any run, every transaction on the chain is signed. */
  lemma {:induction false} RunAllSigned(env: Env, start: map<string, int>, ops: seq<Op>)
    ensures AllSigned(env, AllTransactions(Run(env, Initial(env, start), ops).chain))
    decreases |ops|
  {
    if ops == [] {
      assert [Genesis(env)][..0] == [];
      assert AllTransactions([Genesis(env)]) == [];
    } else {
      var init, op := ops[..|ops| - 1], ops[|ops| - 1];
      var s := Run(env, Initial(env, start), init);
      var txs := Posted(env, s, op);
      RunAllSigned(env, start, init);
      PostedBalances(env, s, op);
      ValidIsSigned(env, s.balances, txs);
      PostedTransactions(env, s, op);
    }
  }

  lemma PostedTransactions(env: Env, s: Ledger, op: Op)
    requires s.chain != []
    ensures AllTransactions(Apply(env, s, op).chain) == AllTransactions(s.chain) + Posted(env, s, op)
  {
    var chain := Apply(env, s, op).chain;
    if |chain| > |s.chain| {
      assert chain[..|chain| - 1] == s.chain;
    } else {
      assert AllTransactions(s.chain) + [] == AllTransactions(s.chain);
    }
  }

  /** After any run from any starting balances, every balance, list and index entry is what a
      replay of the chain gives, the total supply is the starting one, and all links hold. */
  lemma {:induction false} RunInvariant(env: Env, start: map<string, int>, ops: seq<Op>)
    ensures Invariant(env, start, Run(env, Initial(env, start), ops))
    decreases |ops|
  {
    if ops == [] {
      InitialInvariant(env, start);
    } else {
      RunInvariant(env, start, ops[..|ops| - 1]);
      ApplyKeeps(env, start, Run(env, Initial(env, start), ops[..|ops| - 1]), ops[|ops| - 1]);
    }
  }

  predicate ChainOk(env: Env, chain: seq<Block>) {
    forall i :: 0 < i < |chain| ==> LinkOk(env, chain, i) && RootOk(env, chain[i])
  }

  /** In a reachable ledger, chain verification can only fail on a Merkle root. */
  lemma VerificationIffRoots(env: Env, start: map<string, int>, s: Ledger)
    requires Invariant(env, start, s)
    ensures ChainOk(env, s.chain) <==> forall i :: 0 < i < |s.chain| ==> RootOk(env, s.chain[i])
  {
  }

  /** A step keeps the chain verifiable unless it is a direct block that is accepted without a
      matching root, which addBlockDirect does not check. */
  lemma StepVerifiesIff(env: Env, start: map<string, int>, s: Ledger, op: Op)
    requires Invariant(env, start, s) && ChainOk(env, s.chain)
    ensures ChainOk(env, Apply(env, s, op).chain) <==>
            (op.OpDirect? && DirectOk(env, s, op.block) ==> RootOk(env, op.block))
  {
    var s' := Apply(env, s, op);
    ApplyKeeps(env, start, s, op);
    VerificationIffRoots(env, start, s');
    match op
    case OpAdd(txs, validator, now, nonces) =>
      AddBlockKeeps(env, start, s, txs, validator, now, nonces);
    case OpDirect(b) =>
      if DirectOk(env, s, b) {
        assert s'.chain[|s.chain|] == b;
      }
    case OpBalance(a) =>
  }

  /** A step puts a block on the chain without a matching root. */
  predicate WrongRoot(env: Env, s: Ledger, op: Op)
    requires s.chain != []
  {
    op.OpDirect? && DirectOk(env, s, op.block) && !RootOk(env, op.block)
  }

  /** The run has accepted no direct block without a matching root. */
  predicate RootsGiven(env: Env, start: map<string, int>, ops: seq<Op>)
    decreases |ops|
  {
    ops == [] ||
    (var init := ops[..|ops| - 1];
     RootsGiven(env, start, init) && !WrongRoot(env, Run(env, Initial(env, start), init), ops[|ops| - 1]))
  }

  lemma ChainOkPrefix(env: Env, s: Ledger, op: Op)
    requires s.chain != [] && ChainOk(env, Apply(env, s, op).chain)
    ensures ChainOk(env, s.chain)
  {
    var chain := Apply(env, s, op).chain;
    forall i | 0 < i < |s.chain|
      ensures LinkOk(env, s.chain, i) && RootOk(env, s.chain[i])
    {
      assert LinkOk(env, chain, i) && RootOk(env, chain[i]);
    }
  }

  /** After any run, chain verification succeeds if and only if every direct block accepted carried
      a matching root. */
  lemma {:induction false} RunVerifiesIff(env: Env, start: map<string, int>, ops: seq<Op>)
    ensures ChainOk(env, Run(env, Initial(env, start), ops).chain) <==> RootsGiven(env, start, ops)
    decreases |ops|
  {
    if ops != [] {
      var init, op := ops[..|ops| - 1], ops[|ops| - 1];
      var s := Run(env, Initial(env, start), init);
      RunVerifiesIff(env, start, init);
      RunInvariant(env, start, init);
      if ChainOk(env, s.chain) {
        StepVerifiesIff(env, start, s, op);
      } else if ChainOk(env, Apply(env, s, op).chain) {
        ChainOkPrefix(env, s, op);
      }
    }
  }

  /** In particular when all direct blocks of the run carry one. */
  lemma {:induction false} RunVerifies(env: Env, start: map<string, int>, ops: seq<Op>)
    requires forall i :: 0 <= i < |ops| && ops[i].OpDirect? ==> RootOk(env, ops[i].block)
    ensures RootsGiven(env, start, ops) && ChainOk(env, Run(env, Initial(env, start), ops).chain)
    decreases |ops|
  {
    if ops != [] { RunVerifies(env, start, ops[..|ops| - 1]); }
    RunVerifiesIff(env, start, ops);
  }

  /** A direct block that a fresh chain accepts although its root is wrong. */
  function WrongRootBlock(env: Env): Block {
    var h := Header(1, Genesis(env).hash, 0, MerkleRootOf(env, []) + "x", 0, "", DIFFICULTY, "");
    Block(h, [], env.headerHash(h))
  }

  /** Whatever the hashes are, addBlockDirect can break the chain it is called on. */
  lemma WrongRootAccepted(env: Env, start: map<string, int>)
    ensures var s := Initial(env, start);
            DirectOk(env, s, WrongRootBlock(env)) && ChainOk(env, s.chain) &&
            !ChainOk(env, AfterDirect(env, s, WrongRootBlock(env)).chain)
  {
    var s, b := Initial(env, start), WrongRootBlock(env);
    assert |b.header.merkleRoot| == |MerkleRootOf(env, [])| + 1;
    assert DirectOk(env, s, b);
    assert AfterDirect(env, s, b).chain[1] == b;
    assert !RootOk(env, b);
  }

  /** The transactions a step posts: none when it is rejected. */
  function Posted(env: Env, s: Ledger, op: Op): seq<Transaction>
    requires s.chain != []
  {
    match op
    case OpAdd(txs, validator, now, nonces) =>
      if AllValid(env, s.balances, txs) && Mined(env, NewHeader(env, s, txs, validator, now), nonces, 0).Some?
      then txs else []
    case OpDirect(b) => if DirectOk(env, s, b) then b.transactions else []
    case OpBalance(a) => []
  }

  /** No balance is negative at any moment of a run. */
  ghost predicate RunSolvent(env: Env, start: map<string, int>, ops: seq<Op>)
    decreases |ops|
  {
    if ops == [] then Solvent(start)
    else
      var init := ops[..|ops| - 1];
      var s := Run(env, Initial(env, start), init);
      RunSolvent(env, start, init) && SolventThroughout(s.balances, Posted(env, s, ops[|ops| - 1]))
  }

  /** Every transfer a run posts is bearable when its turn comes. */
  predicate RunBearable(env: Env, start: map<string, int>, ops: seq<Op>)
    decreases |ops|
  {
    ops == [] ||
    (var init := ops[..|ops| - 1];
     var s := Run(env, Initial(env, start), init);
     RunBearable(env, start, init) && AllBearable(s.balances, Posted(env, s, ops[|ops| - 1])))
  }

  lemma PostedBalances(env: Env, s: Ledger, op: Op)
    requires s.chain != []
    ensures AllValid(env, s.balances, Posted(env, s, op))
    ensures forall a :: Balance(Apply(env, s, op).balances, a) == Balance(Post(s.balances, Posted(env, s, op)), a)
  {
  }

  lemma {:induction false} RunSolventAtEnd(env: Env, start: map<string, int>, ops: seq<Op>)
    requires RunSolvent(env, start, ops)
    ensures Solvent(Run(env, Initial(env, start), ops).balances)
    decreases |ops|
  {
    if ops != [] {
      var s, op := Run(env, Initial(env, start), ops[..|ops| - 1]), ops[|ops| - 1];
      LastMoment(s.balances, Posted(env, s, op));
      PostedBalances(env, s, op);
      forall a
        ensures Balance(Apply(env, s, op).balances, a) >= 0
      {
        assert Balance(Post(s.balances, Posted(env, s, op)), a) >= 0;
      }
    }
  }

  /** From solvent starting balances, no balance is ever negative during a run if and only if every
      transfer it posts is bearable. */
  lemma {:induction false} RunOverdrawsIff(env: Env, start: map<string, int>, ops: seq<Op>)
    requires Solvent(start)
    ensures RunSolvent(env, start, ops) <==> RunBearable(env, start, ops)
    decreases |ops|
  {
    if ops != [] {
      var init, op := ops[..|ops| - 1], ops[|ops| - 1];
      var s := Run(env, Initial(env, start), init);
      RunOverdrawsIff(env, start, init);
      if RunSolvent(env, start, init) {
        RunSolventAtEnd(env, start, init);
        PostedBalances(env, s, op);
        ValidOverdrawsIff(env, s.balances, Posted(env, s, op));
      }
    }
  }

  predicate NonNegativeOp(op: Op) {
    (op.OpAdd? ==> NonNegativeAmounts(op.transactions)) && (op.OpDirect? ==> NonNegativeAmounts(op.block.transactions))
  }

  lemma {:induction false} NonNegativeRunBearable(env: Env, start: map<string, int>, ops: seq<Op>)
    requires Solvent(start) && forall i :: 0 <= i < |ops| ==> NonNegativeOp(ops[i])
    ensures RunBearable(env, start, ops)
    decreases |ops|
  {
    if ops != [] {
      var init, op := ops[..|ops| - 1], ops[|ops| - 1];
      var s := Run(env, Initial(env, start), init);
      NonNegativeRunBearable(env, start, init);
      RunOverdrawsIff(env, start, init);
      RunSolventAtEnd(env, start, init);
      PostedBalances(env, s, op);
      assert NonNegativeOp(op);
      NonNegativeBearable(env, s.balances, Posted(env, s, op));
    }
  }

  /** In particular with non-negative amounts. */
  lemma RunNeverOverdraws(env: Env, start: map<string, int>, ops: seq<Op>)
    requires Solvent(start) && forall i :: 0 <= i < |ops| ==> NonNegativeOp(ops[i])
    ensures RunSolvent(env, start, ops) && Solvent(Run(env, Initial(env, start), ops).balances)
  {
    NonNegativeRunBearable(env, start, ops);
    RunOverdrawsIff(env, start, ops);
    RunSolventAtEnd(env, start, ops);
  }

  // ----- The object -----

  method CalculateMerkleRoot(env: Env, transactions: seq<Transaction>) returns (root: string)
    ensures root == MerkleRootOf(env, transactions)
  {
    if transactions == [] { return env.sha1("empty"); }
    var hashes := [];
    for i := 0 to |transactions|
      invariant hashes == TxHashes(transactions[..i])
    {
      assert transactions[..i + 1][..i] == transactions[..i];
      hashes := hashes + [transactions[i].hash];
    }
    assert transactions[..|transactions|] == transactions;
    var last;
    root, last := ComputeMerkleRoot(env.sha1, hashes);
  }

  method MineBlock(env: Env, header: Header, nonces: nat -> nat) returns (found: bool, mined: Header)
    ensures if found then Mined(env, header, nonces, 0) == Some(mined) else Mined(env, header, nonces, 0) == None
  {
    mined := header.(difficulty := DIFFICULTY);
    var attempt := 0;
    while attempt < MAX_ATTEMPTS
      invariant 0 <= attempt <= MAX_ATTEMPTS && mined.(nonce := 0) == header.(nonce := 0, difficulty := DIFFICULTY)
      invariant Mined(env, header, nonces, 0) == Mined(env, header, nonces, attempt)
    {
      mined := mined.(nonce := nonces(attempt));
      assert mined == header.(nonce := nonces(attempt), difficulty := DIFFICULTY);
      if LeadingZeros(env.headerHash(mined), DIFFICULTY) {
        return true, mined;
      }
      attempt := attempt + 1;
    }
    found := false;
  }

  lemma NextTransaction(m: map<string, int>, lists: map<string, seq<string>>, txs: seq<Transaction>, i: nat)
    requires i < |txs|
    ensures Post(m, txs[i..]) == Post(Transfer(m, txs[i]), txs[i + 1..])
    ensures EnterAll(lists, txs[i..]) == EnterAll(Enter(lists, txs[i]), txs[i + 1..])
  {
    assert txs[i..][0] == txs[i] && txs[i..][1..] == txs[i + 1..];
  }

  class BankingBlockchain {
    const env: Env
    var chain: seq<Block>
    var balances: map<string, int>
    var accountTransactions: map<string, seq<string>>
    var blockIndex: map<string, Block>

    function Snapshot(): Ledger
      reads this
    {
      Ledger(chain, balances, accountTransactions, blockIndex)
    }

    /** A fresh chain starts from no balances; nothing below depends on that. */
    constructor (env: Env, start: map<string, int>)
      ensures this.env == env && Snapshot() == Initial(env, start)
    {
      this.env := env;
      chain, balances, accountTransactions, blockIndex := [Genesis(env)], start, map[], map[];
    }

    method ValidateTransactions(transactions: seq<Transaction>) returns (ok: bool)
      ensures ok <==> AllValid(env, balances, transactions)
    {
      var temp := balances;
      for i := 0 to |transactions|
        invariant AllValid(env, balances, transactions) <==> AllValid(env, temp, transactions[i..])
      {
        var tx := transactions[i];
        assert transactions[i..][0] == tx && transactions[i..][1..] == transactions[i + 1..];
        if !env.verify(tx) { return false; }
        if Balance(temp, tx.from) < tx.amount { return false; }
        temp := temp[tx.from := Balance(temp, tx.from) - tx.amount];
        temp := temp[tx.to := Balance(temp, tx.to) + tx.amount];
      }
      ok := true;
    }

    method PostOne(tx: Transaction)
      modifies this`balances, this`accountTransactions
      ensures balances == Transfer(old(balances), tx)
      ensures accountTransactions == Enter(old(accountTransactions), tx)
    {
      balances := balances[tx.from := Balance(balances, tx.from) - tx.amount];
      balances := balances[tx.to := Balance(balances, tx.to) + tx.amount];
      accountTransactions := accountTransactions[tx.from := Entries(accountTransactions, tx.from) + [tx.txId]];
      accountTransactions := accountTransactions[tx.to := Entries(accountTransactions, tx.to) + [tx.txId]];
    }

    method UpdateBalances(transactions: seq<Transaction>)
      modifies this`balances, this`accountTransactions
      ensures balances == Post(old(balances), transactions)
      ensures accountTransactions == EnterAll(old(accountTransactions), transactions)
    {
      for i := 0 to |transactions|
        invariant Post(balances, transactions[i..]) == Post(old(balances), transactions)
        invariant EnterAll(accountTransactions, transactions[i..]) == EnterAll(old(accountTransactions), transactions)
      {
        NextTransaction(balances, accountTransactions, transactions, i);
        PostOne(transactions[i]);
      }
    }

    method AddBlock(transactions: seq<Transaction>, validator: string, now: nat, nonces: nat -> nat)
      returns (ok: bool)
      requires chain != []
      modifies this
      ensures var s := old(Snapshot());
              Snapshot() == AfterAdd(env, s, transactions, validator, now, nonces) &&
              (ok <==> AllValid(env, s.balances, transactions) &&
                       Mined(env, NewHeader(env, s, transactions, validator, now), nonces, 0).Some?)
    {
      ghost var s := Snapshot();
      ok := ValidateTransactions(transactions);
      if !ok { return; }
      var root := CalculateMerkleRoot(env, transactions);
      var header := Header(Int32(|chain|), chain[|chain| - 1].hash, now, root, 0, validator, DIFFICULTY, "");
      assert header == NewHeader(env, s, transactions, validator, now);
      var mined;
      ok, mined := MineBlock(env, header, nonces);
      if !ok { return; }
      Append(Block(mined, transactions, env.headerHash(mined)));
    }

    method AddBlockDirect(block: Block) returns (ok: bool)
      requires chain != []
      modifies this
      ensures ok <==> DirectOk(env, old(Snapshot()), block)
      ensures Snapshot() == AfterDirect(env, old(Snapshot()), block)
    {
      if block.header.index != Int32(|chain|) { return false; }
      if block.header.previousHash != chain[|chain| - 1].hash { return false; }
      if env.headerHash(block.header) != block.hash { return false; }
      ok := ValidateTransactions(block.transactions);
      if !ok { return; }
      Append(block);
    }

    method Append(block: Block)
      modifies this
      ensures Snapshot() == Appended(old(Snapshot()), block)
    {
      UpdateBalances(block.transactions);
      chain := chain + [block];
      blockIndex := blockIndex[block.hash := block];
    }

    method GetBalance(account: string) returns (balance: int)
      modifies this`balances
      ensures balance == Balance(old(balances), account) && Snapshot() == Touched(old(Snapshot()), account)
    {
      if account !in balances {
        balances := balances[account := 0];
      }
      balance := balances[account];
      assert balances == old(balances)[account := Balance(old(balances), account)];
    }

    method VerifyChain() returns (ok: bool)
      ensures ok <==> ChainOk(env, chain)
    {
      var i := 1;
      while i < |chain|
        invariant 1 <= i
        invariant forall j :: 0 < j < i && j < |chain| ==> LinkOk(env, chain, j) && RootOk(env, chain[j])
      {
        if chain[i].header.previousHash != chain[i - 1].hash { assert !LinkOk(env, chain, i); return false; }
        if env.headerHash(chain[i].header) != chain[i].hash { assert !LinkOk(env, chain, i); return false; }
        if chain[i].header.index != Int32(i) { assert !LinkOk(env, chain, i); return false; }
        assert LinkOk(env, chain, i);
        var root := CalculateMerkleRoot(env, chain[i].transactions);
        if chain[i].header.merkleRoot != root { assert !RootOk(env, chain[i]); return false; }
        i := i + 1;
      }
      ok := true;
    }

    method GetTotalSupply() returns (total: int)
      ensures total == Sum(balances)
    {
      total := 0;
      var rest := balances;
      while rest.Keys != {}
        invariant total + Sum(rest) == Sum(balances)
        decreases |rest|
      {
        var account :| account in rest.Keys;
        SumWithout(rest, account);
        SmallerWithout(rest, account);
        total := total + rest[account];
        rest := rest - {account};
      }
    }
  }
}
