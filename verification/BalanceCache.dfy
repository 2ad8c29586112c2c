/** The token engine's open-addressing balance cache. */
module BalanceCaches {
  import opened Remainders
  import opened Words

  /** The first two bytes, which alone enter the slot computation, and the remaining 62. */
  datatype Address = Address(first: uint8, second: uint8, others: seq<uint8>)

  datatype Key = Key(address: Address, token: uint32)

  function ZeroKey(): Key {
    Key(Address(0, 0, seq(62, _ => 0)), 0)
  }

  /** A slot is in use when its last_update_block is not 0. */
  datatype Entry = Entry(key: Key, balance: nat, lastUpdateBlock: nat) {
    predicate Used() {
      lastUpdateBlock != 0
    }
  }

  /** What memset leaves in a slot. */
  function Empty(): Entry {
    Entry(ZeroKey(), 0, 0)
  }

  /** Bitwise exclusive or. */
  function Xor(x: nat, y: nat): nat
    decreases x + y
  {
    if x + y == 0 then 0
    else 2 * Xor(x / 2, y / 2) + if x % 2 == y % 2 then 0 else 1
  }

  /** The home slot of a key: its bytes and token mixed by exclusive or, modulo the capacity. */
  function Home(key: Key, capacity: nat): (h: nat)
    requires capacity > 0
    ensures h < capacity
  {
    Xor(Xor(key.address.first, 256 * key.address.second), key.token) % capacity
  }

  /** Bit k of the exclusive or is set if and only if it differs in the operands. */
  lemma {:induction false} XorBit(x: nat, y: nat, k: nat)
    ensures Halves(Xor(x, y), k) % 2 == if Halves(x, k) % 2 == Halves(y, k) % 2 then 0 else 1
    decreases k
  {
    XorHalf(x, y);
    if k > 0 { XorBit(x / 2, y / 2, k - 1); }
  }

  function Halves(n: nat, k: nat): nat
    decreases k
  {
    if k == 0 then n else Halves(n / 2, k - 1)
  }

  lemma XorHalf(x: nat, y: nat)
    ensures Xor(x, y) / 2 == Xor(x / 2, y / 2)
    ensures Xor(x, y) % 2 == if x % 2 == y % 2 then 0 else 1
  {
  }

  /** The second byte stands above the first one, so mixing the two is placing them side by side. */
  lemma HomeMixes(key: Key, capacity: nat)
    requires capacity > 0
    ensures Home(key, capacity) == Xor(key.address.first + 256 * key.address.second, key.token) % capacity
  {
    var high := key.address.second;
    DoubledByte(high);
    XorDisjoint(key.address.first, high, 8);
  }

  function Doubled(n: nat, k: nat): nat {
    if k == 0 then n else 2 * Doubled(n, k - 1)
  }

  lemma DoubledByte(n: nat)
    ensures Doubled(n, 8) == 256 * n && Pow2(8) == 256
  {
    assert Doubled(n, 1) == 2 * n;
    assert Doubled(n, 2) == 4 * n;
    assert Doubled(n, 3) == 8 * n;
    assert Doubled(n, 4) == 16 * n;
    assert Doubled(n, 5) == 32 * n;
    assert Doubled(n, 6) == 64 * n;
    assert Doubled(n, 7) == 128 * n;
  }

  lemma {:induction false} XorDisjoint(low: nat, high: nat, k: nat)
    requires low < Pow2(k)
    ensures Xor(low, Doubled(high, k)) == low + Doubled(high, k)
    decreases k
  {
    if k == 0 {
      XorZero(high);
    } else {
      XorHalf(low, Doubled(high, k));
      assert Doubled(high, k) / 2 == Doubled(high, k - 1) && Doubled(high, k) % 2 == 0;
      XorDisjoint(low / 2, high, k - 1);
    }
  }

  lemma {:induction false} XorZero(n: nat)
    ensures Xor(0, n) == n
    decreases n
  {
    if n > 0 { XorZero(n / 2); }
  }

  // ----- Positions on the ring of slots -----

  /** The slot probed d-th for a key: d places after its home, wrapping once. */
  function Probed(key: Key, d: nat, capacity: nat): nat
    requires 0 < capacity && d <= capacity
  {
    var home := Home(key, capacity);
    if home + d < capacity then home + d else home + d - capacity
  }

  /** How many slots are probed for a key before the given one. */
  function Distance(key: Key, slot: nat, capacity: nat): (d: nat)
    requires slot < capacity
    ensures d < capacity && Probed(key, d, capacity) == slot
  {
    var home := Home(key, capacity);
    if home <= slot then slot - home else slot + capacity - home
  }

  lemma ProbedDistinct(key: Key, d: nat, e: nat, capacity: nat)
    requires d < capacity && e < capacity && Probed(key, d, capacity) == Probed(key, e, capacity)
    ensures d == e
  {
  }

  lemma NextProbed(key: Key, d: nat, capacity: nat)
    requires d < capacity
    ensures (Probed(key, d, capacity) + 1) % capacity == Probed(key, d + 1, capacity)
    ensures Probed(key, d + 1, capacity) == Probed(key, 0, capacity) <==> d + 1 == capacity
  {
    SuccessorModulo(Probed(key, d, capacity), capacity);
  }

  function UsedSlots(entries: seq<Entry>): (n: nat)
    ensures n <= |entries|
    decreases |entries|
  {
    if entries == [] then 0
    else UsedSlots(entries[..|entries| - 1]) + if entries[|entries| - 1].Used() then 1 else 0
  }

  lemma {:induction false} UsedSlotsFull(entries: seq<Entry>)
    ensures UsedSlots(entries) == |entries| <==> forall j :: 0 <= j < |entries| ==> entries[j].Used()
    decreases |entries|
  {
    if entries != [] { UsedSlotsFull(entries[..|entries| - 1]); }
  }

  lemma {:induction false} UsedSlotsUpdate(entries: seq<Entry>, j: nat, e: Entry)
    requires j < |entries| && e.Used()
    ensures UsedSlots(entries[j := e]) == UsedSlots(entries) + if entries[j].Used() then 0 else 1
    decreases |entries|
  {
    var init := entries[..|entries| - 1];
    if j < |entries| - 1 {
      UsedSlotsUpdate(init, j, e);
      assert entries[j := e][..|entries| - 1] == init[j := e];
    } else {
      assert entries[j := e][..|entries| - 1] == init;
    }
  }

  /** where gives the slot of every key held; every slot from its home to there is in use. */
  ghost predicate Placed(entries: seq<Entry>, where: map<Key, nat>) {
    && (forall k :: k in where ==> where[k] < |entries| && entries[where[k]].Used() && entries[where[k]].key == k)
    && (forall j :: 0 <= j < |entries| && entries[j].Used() ==>
          entries[j].key in where && where[entries[j].key] == j)
    && (forall j :: 0 <= j < |entries| && !entries[j].Used() ==> entries[j] == Empty())
    && (forall k, d :: k in where && 0 <= d < Distance(k, where[k], |entries|) ==>
          entries[Probed(k, d, |entries|)].Used())
  }

  /** The first d slots probed for a key are in use by other keys. */
  ghost predicate Passed(entries: seq<Entry>, key: Key, d: nat)
    requires entries != [] && d <= |entries|
  {
    forall k :: 0 <= k < d ==>
      entries[Probed(key, k, |entries|)].Used() && entries[Probed(key, k, |entries|)].key != key
  }

  lemma HeldStopsProbe(entries: seq<Entry>, where: map<Key, nat>, key: Key, d: nat)
    requires entries != [] && Placed(entries, where) && key in where
    requires d <= |entries| && Passed(entries, key, d)
    ensures d <= Distance(key, where[key], |entries|)
  {
    var reach := Distance(key, where[key], |entries|);
    assert entries[Probed(key, reach, |entries|)].key == key;
    if reach < d {
      assert false;
    }
  }

  /** A probe that meets an unused slot has shown that the key is not held. */
  lemma NotHeldBeyondUnused(entries: seq<Entry>, where: map<Key, nat>, key: Key, d: nat)
    requires entries != [] && Placed(entries, where) && d < |entries| && Passed(entries, key, d)
    requires !entries[Probed(key, d, |entries|)].Used()
    ensures key !in where
    ensures UsedSlots(entries) < |entries|
  {
    UsedSlotsFull(entries);
    if key in where {
      var reach := Distance(key, where[key], |entries|);
      HeldStopsProbe(entries, where, key, d);
      if d == reach {
        assert false;
      } else {
        assert false;
      }
    }
  }

  /** A probe that goes all the way round has shown that the key is not held and the table is full. */
  lemma NotHeldAllRound(entries: seq<Entry>, where: map<Key, nat>, key: Key)
    requires entries != [] && Placed(entries, where) && Passed(entries, key, |entries|)
    ensures key !in where
    ensures UsedSlots(entries) == |entries|
  {
    forall j | 0 <= j < |entries|
      ensures entries[j].Used() && entries[j].key != key
    {
      var d := Distance(key, j, |entries|);
    }
    UsedSlotsFull(entries);
  }

  /** The balance of every key held. */
  ghost function Balances(entries: seq<Entry>, where: map<Key, nat>): (m: map<Key, nat>)
    requires Placed(entries, where)
    ensures m.Keys == where.Keys && |m| == |where|
  {
    var m := map k | k in where :: entries[where[k]].balance;
    assert m.Keys == where.Keys;
    m
  }

  lemma PlaceNew(entries: seq<Entry>, where: map<Key, nat>, key: Key, d: nat, e: Entry)
    requires entries != [] && Placed(entries, where) && key !in where
    requires d < |entries| && Passed(entries, key, d) && !entries[Probed(key, d, |entries|)].Used()
    requires e.Used() && e.key == key
    ensures var slot := Probed(key, d, |entries|);
            Placed(entries[slot := e], where[key := slot])
  {
    ProbedDistinct(key, d, Distance(key, Probed(key, d, |entries|), |entries|), |entries|);
  }

  lemma BalancesWithNew(entries: seq<Entry>, where: map<Key, nat>, key: Key, slot: nat, e: Entry)
    requires Placed(entries, where) && key !in where && slot < |entries| && !entries[slot].Used()
    requires Placed(entries[slot := e], where[key := slot])
    ensures Balances(entries[slot := e], where[key := slot]) == Balances(entries, where)[key := e.balance]
  {
  }

  lemma BalancesWithReplaced(entries: seq<Entry>, where: map<Key, nat>, key: Key, e: Entry)
    requires Placed(entries, where) && key in where
    requires Placed(entries[where[key] := e], where)
    ensures Balances(entries[where[key] := e], where) == Balances(entries, where)[key := e.balance]
  {
  }

  lemma ReplaceHeld(entries: seq<Entry>, where: map<Key, nat>, key: Key, e: Entry)
    requires entries != [] && Placed(entries, where) && key in where
    requires e.Used() && e.key == key
    ensures Placed(entries[where[key] := e], where)
  {
  }

  // ----- The map the table stands for -----

  function Updated(m: map<Key, nat>, capacity: nat, key: Key, delta: nat): map<Key, nat> {
    if key in m then m[key := (m[key] + delta) % TWO_TO_THE_64]
    else if |m| < capacity then m[key := delta]
    else m
  }

  function Lookup(m: map<Key, nat>, key: Key): nat {
    if key in m then m[key] else 0
  }

  // ----- What the two loops compute on the slots -----

  /** The number of slots probed before one that is unused or holds the key; all of them if none does. */
  function Stop(entries: seq<Entry>, key: Key, d: nat): (e: nat)
    requires entries != [] && d <= |entries|
    ensures d <= e <= |entries|
    decreases |entries| - d
  {
    if d == |entries| then d
    else
      var slot := entries[Probed(key, d, |entries|)];
      if !slot.Used() || slot.key == key then d else Stop(entries, key, d + 1)
  }

  function Credited(e: Entry, key: Key, delta: nat): Entry {
    if e.Used() then e.(balance := (e.balance + delta) % TWO_TO_THE_64) else Entry(key, delta, 1)
  }

  function Write(entries: seq<Entry>, key: Key, delta: nat): (r: seq<Entry>)
    requires entries != []
    ensures |r| == |entries|
  {
    var d := Stop(entries, key, 0);
    if d == |entries| then entries
    else
      var slot := Probed(key, d, |entries|);
      entries[slot := Credited(entries[slot], key, delta)]
  }

  /** The probe at which the reading loop finds the key, |entries| if it gives up. It compares a
      slot before it tests whether the slot is in use. */
  function Match(entries: seq<Entry>, key: Key, d: nat): (e: nat)
    requires d < |entries|
    ensures e <= |entries|
    decreases |entries| - d
  {
    if entries[Probed(key, d, |entries|)].key == key then d
    else if d + 1 == |entries| || !entries[Probed(key, d + 1, |entries|)].Used() then |entries|
    else Match(entries, key, d + 1)
  }

  function Read(entries: seq<Entry>, key: Key): nat
    requires entries != []
  {
    var d := Match(entries, key, 0);
    if d == |entries| then 0 else entries[Probed(key, d, |entries|)].balance
  }

  lemma {:induction false} StopPasses(entries: seq<Entry>, key: Key, d: nat)
    requires entries != [] && d <= |entries| && Passed(entries, key, d)
    ensures var e := Stop(entries, key, d);
            Passed(entries, key, e) &&
            (e < |entries| ==> var slot := entries[Probed(key, e, |entries|)]; !slot.Used() || slot.key == key)
    decreases |entries| - d
  {
    if d < |entries| {
      var slot := entries[Probed(key, d, |entries|)];
      if slot.Used() && slot.key != key {
        StopPasses(entries, key, d + 1);
      }
    }
  }

  // ----- What the counters count -----

  /** An update is dropped if and only if the table is full and the key is not held. */
  lemma DroppedIff(entries: seq<Entry>, where: map<Key, nat>, key: Key)
    requires entries != [] && Placed(entries, where)
    ensures Stop(entries, key, 0) == |entries| <==> UsedSlots(entries) == |entries| && key !in where
  {
    StopPasses(entries, key, 0);
    var d := Stop(entries, key, 0);
    if d == |entries| {
      NotHeldAllRound(entries, where, key);
    } else {
      PlacedOrFree(entries, where, Probed(key, d, |entries|));
    }
  }

  lemma PlacedOrFree(entries: seq<Entry>, where: map<Key, nat>, slot: nat)
    requires Placed(entries, where) && slot < |entries|
    ensures entries[slot].Used() ==> entries[slot].key in where
    ensures !entries[slot].Used() ==> UsedSlots(entries) < |entries|
  {
    UsedSlotsFull(entries);
  }

  /** A read counts as a hit if and only if the key is held, or is the all-zero key and its home slot is
      unused, because an unused slot is zeroed and compared first. */
  lemma HitIff(entries: seq<Entry>, where: map<Key, nat>, key: Key)
    requires entries != [] && Placed(entries, where)
    ensures Match(entries, key, 0) < |entries| <==>
            key in where || (key == ZeroKey() && !entries[Probed(key, 0, |entries|)].Used())
  {
    var home := entries[Probed(key, 0, |entries|)];
    if home.Used() {
      MatchFrom(entries, where, key, 0);
    } else {
      NotHeldBeyondUnused(entries, where, key, 0);
      if home.key != key {
        NoMatchPastHome(entries, where, key, 0);
      }
    }
  }

  // ----- Refinement of the map -----

  ghost function WhereAfter(entries: seq<Entry>, where: map<Key, nat>, key: Key): map<Key, nat>
    requires entries != []
  {
    var d := Stop(entries, key, 0);
    if key in where || d == |entries| then where else where[key := Probed(key, d, |entries|)]
  }

  /** One update of the table is one update of the map it stands for. */
  lemma WriteRefines(entries: seq<Entry>, where: map<Key, nat>, key: Key, delta: nat)
    requires entries != [] && Placed(entries, where) && UsedSlots(entries) == |where|
    ensures var after, where' := Write(entries, key, delta), WhereAfter(entries, where, key);
            Placed(after, where') && UsedSlots(after) == |where'| &&
            Balances(after, where') == Updated(Balances(entries, where), |entries|, key, delta)
  {
    var d := Stop(entries, key, 0);
    StopPasses(entries, key, 0);
    if d == |entries| {
      NotHeldAllRound(entries, where, key);
    } else {
      var slot := Probed(key, d, |entries|);
      UsedSlotsUpdate(entries, slot, Credited(entries[slot], key, delta));
      if entries[slot].Used() {
        CreditHeld(entries, where, key, delta);
      } else {
        CreditNew(entries, where, key, delta, d);
      }
    }
  }

  lemma CreditHeld(entries: seq<Entry>, where: map<Key, nat>, key: Key, delta: nat)
    requires entries != [] && Placed(entries, where) && key in where
    ensures var after := entries[where[key] := Credited(entries[where[key]], key, delta)];
            Placed(after, where) &&
            Balances(after, where) == Updated(Balances(entries, where), |entries|, key, delta)
  {
    var e := Credited(entries[where[key]], key, delta);
    ReplaceHeld(entries, where, key, e);
    BalancesWithReplaced(entries, where, key, e);
    UpdatedHeld(entries, where, key, delta);
  }

  lemma CreditNew(entries: seq<Entry>, where: map<Key, nat>, key: Key, delta: nat, d: nat)
    requires entries != [] && Placed(entries, where) && UsedSlots(entries) == |where|
    requires d < |entries| && Passed(entries, key, d) && !entries[Probed(key, d, |entries|)].Used()
    ensures key !in where
    ensures var slot := Probed(key, d, |entries|);
            var after, where' := entries[slot := Credited(entries[slot], key, delta)], where[key := slot];
            Placed(after, where') && |where'| == |where| + 1 &&
            Balances(after, where') == Updated(Balances(entries, where), |entries|, key, delta)
  {
    var slot := Probed(key, d, |entries|);
    var e := Credited(entries[slot], key, delta);
    NotHeldBeyondUnused(entries, where, key, d);
    PlaceNew(entries, where, key, d, e);
    BalancesWithNew(entries, where, key, slot, e);
  }

  lemma UpdatedHeld(entries: seq<Entry>, where: map<Key, nat>, key: Key, delta: nat)
    requires entries != [] && Placed(entries, where) && key in where
    ensures Updated(Balances(entries, where), |entries|, key, delta) ==
            Balances(entries, where)[key := Credited(entries[where[key]], key, delta).balance]
  {
  }

  /** Reading returns the balance held, or 0: also past an unused home slot, and all round a full table. */
  lemma ReadRefines(entries: seq<Entry>, where: map<Key, nat>, key: Key)
    requires entries != [] && Placed(entries, where)
    ensures Read(entries, key) == Lookup(Balances(entries, where), key)
  {
    var home := entries[Probed(key, 0, |entries|)];
    if home.Used() {
      MatchFrom(entries, where, key, 0);
    } else {
      NotHeldBeyondUnused(entries, where, key, 0);
      if home.key != key {
        NoMatchPastHome(entries, where, key, 0);
      }
    }
  }

  lemma {:induction false} MatchFrom(entries: seq<Entry>, where: map<Key, nat>, key: Key, d: nat)
    requires Placed(entries, where) && d < |entries|
    requires Passed(entries, key, d) && entries[Probed(key, d, |entries|)].Used()
    ensures var e := Match(entries, key, d);
            if key in where then e < |entries| && Probed(key, e, |entries|) == where[key] else e == |entries|
    decreases |entries| - d
  {
    if entries[Probed(key, d, |entries|)].key == key {
      PlacedAt(entries, where, Probed(key, d, |entries|));
    } else {
      MatchGoesOn(entries, key, d);
      PassedOneMore(entries, key, d);
      if d + 1 == |entries| {
        NotHeldAllRound(entries, where, key);
      } else if !entries[Probed(key, d + 1, |entries|)].Used() {
        NotHeldBeyondUnused(entries, where, key, d + 1);
      } else {
        MatchFrom(entries, where, key, d + 1);
      }
    }
  }

  lemma PlacedAt(entries: seq<Entry>, where: map<Key, nat>, slot: nat)
    requires Placed(entries, where) && slot < |entries| && entries[slot].Used()
    ensures entries[slot].key in where && where[entries[slot].key] == slot
  {
  }

  lemma MatchGoesOn(entries: seq<Entry>, key: Key, d: nat)
    requires d < |entries| && entries[Probed(key, d, |entries|)].key != key
    ensures Match(entries, key, d) ==
            if d + 1 == |entries| || !entries[Probed(key, d + 1, |entries|)].Used() then |entries|
            else Match(entries, key, d + 1)
  {
  }

  lemma PassedOneMore(entries: seq<Entry>, key: Key, d: nat)
    requires d < |entries| && Passed(entries, key, d)
    requires entries[Probed(key, d, |entries|)].Used() && entries[Probed(key, d, |entries|)].key != key
    ensures Passed(entries, key, d + 1)
  {
  }

  lemma {:induction false} NoMatchPastHome(entries: seq<Entry>, where: map<Key, nat>, key: Key, d: nat)
    requires Placed(entries, where) && key !in where && d < |entries|
    requires d > 0 ==> entries[Probed(key, d, |entries|)].Used()
    requires d == 0 ==> entries[Probed(key, d, |entries|)].key != key
    ensures Match(entries, key, d) == |entries|
    decreases |entries| - d
  {
    if d + 1 < |entries| && entries[Probed(key, d + 1, |entries|)].Used() {
      NoMatchPastHome(entries, where, key, d + 1);
    }
  }

  // ----- Whole runs from an empty table -----

  datatype Op = Op(key: Key, delta: nat)

  function RunTable(entries: seq<Entry>, ops: seq<Op>): (r: seq<Entry>)
    requires entries != []
    ensures |r| == |entries|
    decreases |ops|
  {
    if ops == [] then entries
    else
      var last := ops[|ops| - 1];
      Write(RunTable(entries, ops[..|ops| - 1]), last.key, last.delta)
  }

  function RunMap(ops: seq<Op>, capacity: nat): (m: map<Key, nat>)
    decreases |ops|
  {
    if ops == [] then map[]
    else
      var last := ops[|ops| - 1];
      Updated(RunMap(ops[..|ops| - 1], capacity), capacity, last.key, last.delta)
  }

  function Keys(ops: seq<Op>): set<Key>
    decreases |ops|
  {
    if ops == [] then {} else Keys(ops[..|ops| - 1]) + {ops[|ops| - 1].key}
  }

  function SumOfDeltas(ops: seq<Op>, key: Key): nat
    decreases |ops|
  {
    if ops == [] then 0
    else
      var last := ops[|ops| - 1];
      SumOfDeltas(ops[..|ops| - 1], key) + if last.key == key then last.delta else 0
  }

  /** After any run, what the table returns for a key is what the map holds for it. */
  lemma {:induction false} RunRefines(empty: seq<Entry>, ops: seq<Op>) returns (where: map<Key, nat>)
    requires empty != [] && forall j :: 0 <= j < |empty| ==> empty[j] == Empty()
    ensures var r := RunTable(empty, ops);
            Placed(r, where) && UsedSlots(r) == |where| && Balances(r, where) == RunMap(ops, |empty|)
    ensures forall key :: Read(RunTable(empty, ops), key) == Lookup(RunMap(ops, |empty|), key)
    decreases |ops|
  {
    if ops == [] {
      where := map[];
      BalanceCache.NoneUsed(empty);
    } else {
      var last, before := ops[|ops| - 1], RunTable(empty, ops[..|ops| - 1]);
      var w := RunRefines(empty, ops[..|ops| - 1]);
      WriteRefines(before, w, last.key, last.delta);
      where := WhereAfter(before, w, last.key);
    }
    forall key
      ensures Read(RunTable(empty, ops), key) == Lookup(RunMap(ops, |empty|), key)
    {
      ReadRefines(RunTable(empty, ops), where, key);
    }
  }

  /** A key held holds the sum of all its deltas modulo 2^64. */
  lemma {:induction false} RunHoldsSums(ops: seq<Op>, capacity: nat, key: Key)
    requires forall i :: 0 <= i < |ops| ==> ops[i].delta < TWO_TO_THE_64
    requires key in RunMap(ops, capacity)
    ensures RunMap(ops, capacity)[key] == SumOfDeltas(ops, key) % TWO_TO_THE_64
    decreases |ops|
  {
    var init, last := ops[..|ops| - 1], ops[|ops| - 1];
    if key in RunMap(init, capacity) {
      RunHoldsSums(init, capacity, key);
    } else {
      RunAbsentOrFull(init, capacity, key);
    }
  }

  lemma {:induction false} RunAbsentOrFull(ops: seq<Op>, capacity: nat, key: Key)
    requires key !in RunMap(ops, capacity)
    ensures |RunMap(ops, capacity)| <= capacity
    ensures |RunMap(ops, capacity)| < capacity ==> SumOfDeltas(ops, key) == 0
    decreases |ops|
  {
    if ops != [] {
      RunAbsentOrFull(ops[..|ops| - 1], capacity, key);
    }
  }

  lemma UpdatedKeys(m: map<Key, nat>, capacity: nat, key: Key, delta: nat)
    requires |m| <= capacity
    ensures var u := Updated(m, capacity, key, delta);
            |u| <= capacity && (u.Keys == m.Keys + {key} || (u == m && |m| == capacity))
  {
  }

  lemma {:induction false} RunKeys(ops: seq<Op>, capacity: nat)
    ensures RunMap(ops, capacity).Keys <= Keys(ops)
    ensures |RunMap(ops, capacity)| <= capacity
    ensures RunMap(ops, capacity).Keys == Keys(ops) || |RunMap(ops, capacity)| == capacity
    decreases |ops|
  {
    if ops != [] {
      var init, last := ops[..|ops| - 1], ops[|ops| - 1];
      RunKeys(init, capacity);
      UpdatedKeys(RunMap(init, capacity), capacity, last.key, last.delta);
    }
  }

  /** Nothing is dropped exactly when the run uses no more keys than there are slots. */
  lemma NothingDroppedIff(ops: seq<Op>, capacity: nat)
    ensures RunMap(ops, capacity).Keys == Keys(ops) <==> |Keys(ops)| <= capacity
  {
    var held := RunMap(ops, capacity).Keys;
    RunKeys(ops, capacity);
    assert |RunMap(ops, capacity)| == |held|;
    if |Keys(ops)| <= capacity && held != Keys(ops) {
      ProperSubsetSmaller(held, Keys(ops));
    }
  }

  lemma ProperSubsetSmaller<T>(a: set<T>, b: set<T>)
    requires a < b
    ensures |a| < |b|
  {
    assert b == a + (b - a);
    var x :| x in b - a;
  }

  // ----- The loops -----

  class BalanceCache {
    const entries: array<Entry>
    var count: nat
    var hits: nat
    var misses: nat

    ghost predicate Valid()
      reads `count, entries
    {
      0 < entries.Length <= TWO_TO_THE_32 && count == UsedSlots(entries[..])
    }

    constructor (capacity: nat)
      requires 0 < capacity <= TWO_TO_THE_32
      ensures Valid() && fresh(entries) && |entries[..]| == capacity
      ensures forall j :: 0 <= j < capacity ==> entries[..][j] == Empty()
      ensures hits == misses == 0
    {
      entries := new Entry[capacity](_ => Empty());
      count, hits, misses := 0, 0, 0;
      new;
      NoneUsed(entries[..]);
    }

    static lemma {:induction false} NoneUsed(entries: seq<Entry>)
      requires forall j :: 0 <= j < |entries| ==> !entries[j].Used()
      ensures UsedSlots(entries) == 0
      decreases |entries|
    {
      if entries != [] { NoneUsed(entries[..|entries| - 1]); }
    }

    method Update(key: Key, delta: nat)
      requires Valid() && delta < TWO_TO_THE_64
      modifies this, entries
      ensures Valid()
      ensures entries[..] == Write(old(entries[..]), key, delta)
      ensures var dropped := Stop(old(entries[..]), key, 0) == entries.Length;
              hits == (if dropped then old(hits) else (old(hits) + 1) % TWO_TO_THE_64) &&
              misses == if dropped then (old(misses) + 1) % TWO_TO_THE_64 else old(misses)
    {
      var capacity := entries.Length;
      var idx := Home(key, capacity);
      var start := idx;
      ghost var slots, d := entries[..], 0;
      var found := false;
      while true
        invariant d < capacity && idx == Probed(key, d, capacity) && !found
        invariant Stop(slots, key, 0) == Stop(slots, key, d)
        invariant Valid() && entries[..] == slots && count == old(count)
        invariant hits == old(hits) && misses == old(misses)
        decreases capacity - d
      {
        assert slots[idx] == entries[idx];
        if !entries[idx].Used() {
          UsedSlotsUpdate(slots, idx, Entry(key, delta, 1));
          entries[idx] := Entry(key, delta, 1);
          count := count + 1;
          found := true;
          assert entries[..] == slots[idx := Entry(key, delta, 1)];
          break;
        }
        if entries[idx].key == key {
          ghost var e := Credited(slots[idx], key, delta);
          UsedSlotsUpdate(slots, idx, e);
          entries[idx] := entries[idx].(balance := (entries[idx].balance + delta) % TWO_TO_THE_64);
          found := true;
          assert entries[..] == slots[idx := e];
          break;
        }
        NextProbed(key, d, capacity);
        idx, d := (idx + 1) % capacity, d + 1;
        if idx == start {
          break;
        }
      }
      if found {
        hits := (hits + 1) % TWO_TO_THE_64;
      } else {
        misses := (misses + 1) % TWO_TO_THE_64;
      }
    }

    method Get(key: Key) returns (result: nat)
      requires Valid()
      modifies this`hits, this`misses
      ensures result == Read(entries[..], key)
      ensures var matched := Match(entries[..], key, 0) < entries.Length;
              hits == (if matched then (old(hits) + 1) % TWO_TO_THE_64 else old(hits)) &&
              misses == if matched then old(misses) else (old(misses) + 1) % TWO_TO_THE_64
    {
      var capacity := entries.Length;
      var idx := Home(key, capacity);
      var start := idx;
      ghost var slots, d := entries[..], 0;
      ghost var matched := Match(slots, key, 0);
      var found := false;
      result := 0;
      while true
        invariant d < capacity && idx == Probed(key, d, capacity) && !found && result == 0
        invariant matched == Match(slots, key, d)
        invariant hits == old(hits) && misses == old(misses)
        decreases capacity - d
      {
        assert slots[idx] == entries[idx];
        if entries[idx].key == key {
          assert matched == d;
          result, found := entries[idx].balance, true;
          break;
        }
        NextProbed(key, d, capacity);
        idx := (idx + 1) % capacity;
        assert slots[idx] == entries[idx];
        if idx == start || !entries[idx].Used() {
          assert Match(slots, key, d) == capacity;
          break;
        }
        d := d + 1;
      }
      assert found <==> matched < capacity;
      assert result == Read(slots, key);
      if found {
        hits := (hits + 1) % TWO_TO_THE_64;
      } else {
        misses := (misses + 1) % TWO_TO_THE_64;
      }
      assert entries[..] == slots;
    }
  }
}
