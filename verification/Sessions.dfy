/** The bank library's session table: 32 slots with lazy expiry, and a ring of master keys. */
module Sessions {
  import opened Words

  const MAX_SESSION_KEYS := 32
  const MAX_KEY_ID := 256
  const MAX_KEY_ROTATIONS := 8
  const KEY_BYTES := 32

  datatype KeyPair = KeyPair(session: seq<byte>, hmac: seq<byte>)

  /** PBKDF2 and SHA-256, with the salt and rotation seed fixed at initialisation. */
  datatype Env = Env(
    kdf: (seq<byte>, seq<byte>) -> KeyPair,
    sha256: seq<byte> -> seq<byte>,
    salt: seq<byte>,
    rotationSeed: seq<byte>)

  datatype Slot = Slot(
    keys: KeyPair, keyId: seq<byte>, keyIdLen: nat, createdAt: int, expiresAt: int, lastUsedAt: int,
    useCount: nat, active: bool)

  datatype Table = Table(
    slots: seq<Slot>, count: int, created: nat, destroyed: nat, keyChain: seq<seq<byte>>, current: nat)

  function ZeroKeys(): KeyPair {
    KeyPair(Zeros(KEY_BYTES), Zeros(KEY_BYTES))
  }

  function ZeroSlot(): Slot {
    Slot(ZeroKeys(), Zeros(MAX_KEY_ID), 0, 0, 0, 0, 0, false)
  }

  // ----- The operations -----

  /** At most 32 bytes of the key id enter the derivation. */
  function Derived(env: Env, master: seq<byte>, keyId: seq<byte>): KeyPair {
    env.kdf(master, env.salt + if |keyId| > 32 then keyId[..32] else keyId)
  }

  function NextMaster(env: Env, master: seq<byte>): seq<byte> {
    env.sha256(master + env.rotationSeed)
  }

  function FirstFree(slots: seq<Slot>, i: nat): (f: nat)
    requires i <= |slots|
    ensures i <= f <= |slots|
    decreases |slots| - i
  {
    if i == |slots| || !slots[i].active then i else FirstFree(slots, i + 1)
  }

  ghost predicate Shaped(t: Table) {
    |t.slots| == MAX_SESSION_KEYS && |t.keyChain| == MAX_KEY_ROTATIONS && t.current < MAX_KEY_ROTATIONS &&
    forall i :: 0 <= i < |t.slots| ==> |t.slots[i].keyId| == MAX_KEY_ID && t.slots[i].keyIdLen <= MAX_KEY_ID
  }

  /** What the clock shows at the three readings of one creation. */
  datatype Clock = Clock(created: int, expires: int, used: int)

  function Opened(env: Env, t: Table, was: Slot, keyId: seq<byte>, ttl: int, clock: Clock): Slot
    requires t.current < |t.keyChain| && |keyId| <= |was.keyId|
  {
    Slot(Derived(env, t.keyChain[t.current], keyId), keyId + was.keyId[|keyId|..], |keyId|,
         clock.created, clock.expires + ttl, clock.used, 0, true)
  }

  /** The identifier returned is the slot number plus one, or 0. */
  function CreateId(t: Table, keyId: seq<byte>): (id: nat) {
    if |keyId| > MAX_KEY_ID || t.count >= MAX_SESSION_KEYS then 0
    else
      var slot := FirstFree(t.slots, 0);
      if slot == |t.slots| then 0 else slot + 1
  }

  function Create(env: Env, t: Table, keyId: seq<byte>, ttl: int, clock: Clock): Table
    requires Shaped(t)
  {
    var id := CreateId(t, keyId);
    if id == 0 then t
    else
      t.(slots := t.slots[id - 1 := Opened(env, t, t.slots[id - 1], keyId, ttl, clock)],
         count := t.count + 1, created := t.created + 1)
  }

  predicate Expired(s: Slot, now: int) {
    s.active && now > s.expiresAt
  }

  function Expire(s: Slot): Slot {
    s.(keys := ZeroKeys(), active := false)
  }

  function Erase(s: Slot): Slot {
    s.(keys := ZeroKeys(), keyId := Zeros(MAX_KEY_ID), active := false)
  }

  predicate InRange(id: int) {
    1 <= id <= MAX_SESSION_KEYS
  }

  /** The keys of a live session; an expired one is closed by the attempt. */
  predicate GetOk(t: Table, id: int, now: int) {
    InRange(id) && id <= |t.slots| && t.slots[id - 1].active && !Expired(t.slots[id - 1], now)
  }

  function Get(t: Table, id: int, now: int): Table
    requires Shaped(t)
  {
    if !InRange(id) || !t.slots[id - 1].active then t
    else if Expired(t.slots[id - 1], now) then Closed(t, id - 1, Expire(t.slots[id - 1]))
    else
      var s := t.slots[id - 1];
      t.(slots := t.slots[id - 1 := s.(lastUsedAt := now, useCount := s.useCount + 1)])
  }

  function Closed(t: Table, i: nat, s: Slot): Table
    requires i < |t.slots|
  {
    t.(slots := t.slots[i := s], count := t.count - 1, destroyed := t.destroyed + 1)
  }

  function Destroy(t: Table, id: int): Table
    requires Shaped(t)
  {
    if !InRange(id) || !t.slots[id - 1].active then t else Closed(t, id - 1, Erase(t.slots[id - 1]))
  }

  /** Slots i and up, swept in order. */
  function CleanupFrom(t: Table, now: int, i: nat): (r: Table)
    ensures |r.slots| == |t.slots|
    decreases |t.slots| - i
  {
    if i >= |t.slots| then t
    else CleanupFrom(if Expired(t.slots[i], now) then Closed(t, i, Expire(t.slots[i])) else t, now, i + 1)
  }

  function Rotate(env: Env, t: Table): Table
    requires Shaped(t)
  {
    var next := (t.current + 1) % MAX_KEY_ROTATIONS;
    t.(keyChain := t.keyChain[next := NextMaster(env, t.keyChain[t.current])], current := next)
  }

  function Initial(master: seq<byte>): Table {
    Table(seq(MAX_SESSION_KEYS, i => ZeroSlot()), 0, 0, 0,
          [master] + seq(MAX_KEY_ROTATIONS - 1, i => Zeros(KEY_BYTES)), 0)
  }

  // ----- What each operation does, slot by slot -----

  predicate OthersUnchanged(t: Table, t': Table, i: nat) {
    |t'.slots| == |t.slots| && forall j :: 0 <= j < |t.slots| && j != i ==> t'.slots[j] == t.slots[j]
  }

  predicate AllZero(b: seq<byte>, n: nat) {
    |b| == n && forall k :: 0 <= k < n ==> b[k] == 0
  }

  predicate KeyChainUnchanged(t: Table, t': Table) {
    t'.keyChain == t.keyChain && t'.current == t.current
  }

  /** A successful creation takes the lowest free slot and opens it with keys derived from the current
      master key; an unsuccessful one changes nothing. */
  lemma CreateOpens(env: Env, t: Table, keyId: seq<byte>, ttl: int, clock: Clock)
    requires Shaped(t)
    ensures CreateId(t, keyId) == 0 ==> Create(env, t, keyId, ttl, clock) == t
    ensures CreateId(t, keyId) != 0 ==>
              var i, t' := CreateId(t, keyId) - 1, Create(env, t, keyId, ttl, clock);
              i < 32 && !t.slots[i].active && (forall j :: 0 <= j < i ==> t.slots[j].active) &&
              OthersUnchanged(t, t', i) && KeyChainUnchanged(t, t') &&
              t'.count == t.count + 1 && t'.created == t.created + 1 && t'.destroyed == t.destroyed
    ensures CreateId(t, keyId) != 0 ==>
              var i, t' := CreateId(t, keyId) - 1, Create(env, t, keyId, ttl, clock);
              i < |t'.slots| && t.current < |t.keyChain| &&
              var s := t'.slots[i];
              s.active && s.keyIdLen == |keyId| <= 256 <= |s.keyId| && s.keyId[..s.keyIdLen] == keyId &&
              s.keys == env.kdf(t.keyChain[t.current], env.salt + if |keyId| > 32 then keyId[..32] else keyId) &&
              s.createdAt == clock.created && s.expiresAt == clock.expires + ttl && s.lastUsedAt == clock.used &&
              s.useCount == 0
  {
    FirstFreeSkips(t.slots, 0);
  }

  /** Fetching succeeds exactly for an active slot not past its expiry, and counts the use; past it the
      slot is closed and its keys are erased. */
  lemma GetUses(t: Table, id: int, now: int)
    requires Shaped(t)
    ensures GetOk(t, id, now) <==> 1 <= id <= 32 && t.slots[id - 1].active && now <= t.slots[id - 1].expiresAt
    ensures GetOk(t, id, now) ==>
              var s, t' := t.slots[id - 1], Get(t, id, now);
              OthersUnchanged(t, t', id - 1) && KeyChainUnchanged(t, t') &&
              t'.slots[id - 1] == s.(lastUsedAt := now, useCount := s.useCount + 1) &&
              t'.count == t.count && t'.created == t.created && t'.destroyed == t.destroyed
    ensures !GetOk(t, id, now) ==>
              if 1 <= id <= 32 && t.slots[id - 1].active then ClosedSlot(t, Get(t, id, now), id - 1)
              else Get(t, id, now) == t
  {
    ZeroKeysAreZero();
  }

  /** Slot i is closed and holds no keys any more; nothing else has changed. */
  predicate ClosedSlot(t: Table, t': Table, i: nat) {
    i < |t'.slots| && !t'.slots[i].active &&
    AllZero(t'.slots[i].keys.session, 32) && AllZero(t'.slots[i].keys.hmac, 32) &&
    OthersUnchanged(t, t', i) && KeyChainUnchanged(t, t') &&
    t'.count == t.count - 1 && t'.created == t.created && t'.destroyed == t.destroyed + 1
  }

  lemma ZeroKeysAreZero()
    ensures AllZero(ZeroKeys().session, 32) && AllZero(ZeroKeys().hmac, 32)
  {
    ZerosAreZero(KEY_BYTES);
  }

  /** Destroying an active session closes it, and erases its key id too; anything else changes nothing. */
  lemma DestroyCloses(t: Table, id: int)
    requires Shaped(t)
    ensures 1 <= id <= 32 && t.slots[id - 1].active ==>
              var t' := Destroy(t, id);
              ClosedSlot(t, t', id - 1) &&
              AllZero(t'.slots[id - 1].keyId, 256)
    ensures !(1 <= id <= 32 && t.slots[id - 1].active) ==> Destroy(t, id) == t
  {
    ZeroKeysAreZero();
    ZerosAreZero(MAX_KEY_ID);
  }

  /** Cleanup closes exactly the active slots past their expiry and erases their keys. */
  lemma {:induction false} CleanupCloses(t: Table, now: int, i: nat)
    requires Shaped(t) && i <= |t.slots|
    ensures var t' := CleanupFrom(t, now, i);
            KeyChainUnchanged(t, t') && t'.created == t.created && |t'.slots| == |t.slots| &&
            (forall j :: 0 <= j < |t.slots| ==>
               if j >= i && t.slots[j].active && now > t.slots[j].expiresAt then
                 !t'.slots[j].active && AllZero(t'.slots[j].keys.session, 32) && AllZero(t'.slots[j].keys.hmac, 32)
               else t'.slots[j] == t.slots[j]) &&
            t.count - t'.count == t'.destroyed - t.destroyed
    decreases |t.slots| - i
  {
    ZeroKeysAreZero();
    if i < |t.slots| {
      CleanupCloses(if Expired(t.slots[i], now) then Closed(t, i, Expire(t.slots[i])) else t, now, i + 1);
    }
  }

  /** Rotation puts the hash of the current master key and the seed into the next of 8 places, which
      becomes the current one, and leaves all sessions and the other places alone. */
  lemma RotateAdvances(env: Env, t: Table)
    requires Shaped(t)
    ensures var t' := Rotate(env, t);
            t'.current == (if t.current == 7 then 0 else t.current + 1) && |t'.keyChain| == 8 &&
            t'.keyChain[t'.current] == env.sha256(t.keyChain[t.current] + env.rotationSeed) &&
            (forall j :: 0 <= j < 8 && j != t'.current ==> t'.keyChain[j] == t.keyChain[j]) &&
            t'.slots == t.slots && t'.count == t.count && t'.created == t.created && t'.destroyed == t.destroyed
  {
  }

  // ----- What every operation keeps -----

  function ActiveCount(slots: seq<Slot>): (n: nat)
    ensures n <= |slots|
    decreases |slots|
  {
    if slots == [] then 0
    else ActiveCount(slots[..|slots| - 1]) + if slots[|slots| - 1].active then 1 else 0
  }

  lemma {:induction false} ActiveCountUpdate(slots: seq<Slot>, i: nat, s: Slot)
    requires i < |slots|
    ensures ActiveCount(slots[i := s]) ==
            ActiveCount(slots) + (if s.active then 1 else 0) - (if slots[i].active then 1 else 0)
    decreases |slots|
  {
    var init := slots[..|slots| - 1];
    if i < |slots| - 1 {
      ActiveCountUpdate(init, i, s);
      assert slots[i := s][..|slots| - 1] == init[i := s];
    } else {
      assert slots[i := s][..|slots| - 1] == init;
    }
  }

  lemma {:induction false} AllActive(slots: seq<Slot>)
    requires forall i :: 0 <= i < |slots| ==> slots[i].active
    ensures ActiveCount(slots) == |slots|
    decreases |slots|
  {
    if slots != [] { AllActive(slots[..|slots| - 1]); }
  }

  lemma {:induction false} NoneActive(slots: seq<Slot>)
    requires forall i :: 0 <= i < |slots| ==> !slots[i].active
    ensures ActiveCount(slots) == 0
    decreases |slots|
  {
    if slots != [] { NoneActive(slots[..|slots| - 1]); }
  }

  lemma {:induction false} FirstFreeSkips(slots: seq<Slot>, i: nat)
    requires i <= |slots| && forall k :: 0 <= k < i ==> slots[k].active
    ensures var f := FirstFree(slots, i);
            (forall k :: 0 <= k < f ==> slots[k].active) && (f < |slots| ==> !slots[f].active)
    decreases |slots| - i
  {
    if i < |slots| && slots[i].active { FirstFreeSkips(slots, i + 1); }
  }

  /** The master key after n rotations: the n-fold hash of the original. */
  function MasterAfter(env: Env, master: seq<byte>, n: nat): seq<byte>
    decreases n
  {
    if n == 0 then master else NextMaster(env, MasterAfter(env, master, n - 1))
  }

  ghost predicate SlotOk(env: Env, master: seq<byte>, s: Slot, generation: nat) {
    if s.active then
      s.keyIdLen <= |s.keyId| &&
      s.keys == Derived(env, MasterAfter(env, master, generation), s.keyId[..s.keyIdLen])
    else s.keys == ZeroKeys()
  }

  /** n rotations so far; generations[i] is the number there had been when slot i was opened. */
  ghost predicate Invariant(env: Env, master: seq<byte>, t: Table, n: nat, generations: seq<nat>) {
    && Shaped(t)
    && t.count == ActiveCount(t.slots) == t.created - t.destroyed
    && t.keyChain[t.current] == MasterAfter(env, master, n)
    && |generations| == |t.slots|
    && (forall i :: 0 <= i < |t.slots| ==> generations[i] <= n && SlotOk(env, master, t.slots[i], generations[i]))
  }

  lemma InitialInvariant(env: Env, master: seq<byte>)
    ensures Invariant(env, master, Initial(master), 0, seq(MAX_SESSION_KEYS, i => 0))
  {
    NoneActive(Initial(master).slots);
  }

  /** A slot is found whenever the count is below the number of slots: the search never fails. */
  lemma CreateSucceedsIff(env: Env, master: seq<byte>, t: Table, n: nat, generations: seq<nat>, keyId: seq<byte>)
    requires Invariant(env, master, t, n, generations)
    ensures CreateId(t, keyId) != 0 <==> |keyId| <= 256 && t.count < 32
    ensures CreateId(t, keyId) != 0 ==>
              CreateId(t, keyId) <= MAX_SESSION_KEYS && !t.slots[CreateId(t, keyId) - 1].active
  {
    FirstFreeSkips(t.slots, 0);
    if FirstFree(t.slots, 0) == |t.slots| {
      AllActive(t.slots);
    }
  }

  lemma SlotReplaced(env: Env, master: seq<byte>, t: Table, n: nat, generations: seq<nat>, i: nat, s: Slot, t': Table)
    requires Invariant(env, master, t, n, generations) && i < |t.slots|
    requires SlotOk(env, master, s, generations[i]) && |s.keyId| == MAX_KEY_ID && s.keyIdLen <= MAX_KEY_ID
    requires t'.slots == t.slots[i := s] && t'.keyChain == t.keyChain && t'.current == t.current
    requires t'.count == t.count + (if s.active then 1 else 0) - (if t.slots[i].active then 1 else 0)
    requires t'.count == t'.created - t'.destroyed
    ensures Invariant(env, master, t', n, generations)
  {
    ActiveCountUpdate(t.slots, i, s);
  }

  lemma CreateKeeps(env: Env, master: seq<byte>, t: Table, n: nat, generations: seq<nat>, keyId: seq<byte>,
                    ttl: int, clock: Clock)
    requires Invariant(env, master, t, n, generations)
    ensures var id := CreateId(t, keyId);
            (id > 0 ==> id <= |generations|) &&
            Invariant(env, master, Create(env, t, keyId, ttl, clock), n,
                      if id == 0 then generations else generations[id - 1 := n])
  {
    var id := CreateId(t, keyId);
    CreateSucceedsIff(env, master, t, n, generations, keyId);
    if id > 0 {
      var s := Opened(env, t, t.slots[id - 1], keyId, ttl, clock);
      assert s.keyId[..s.keyIdLen] == keyId;
      var g := generations[id - 1 := n];
      assert Invariant(env, master, t, n, g);
      SlotReplaced(env, master, t, n, g, id - 1, s, Create(env, t, keyId, ttl, clock));
    }
  }

  lemma GetKeeps(env: Env, master: seq<byte>, t: Table, n: nat, generations: seq<nat>, id: int, now: int)
    requires Invariant(env, master, t, n, generations)
    ensures Invariant(env, master, Get(t, id, now), n, generations)
  {
    if InRange(id) && t.slots[id - 1].active {
      SlotReplaced(env, master, t, n, generations, id - 1, Get(t, id, now).slots[id - 1], Get(t, id, now));
    }
  }

  lemma DestroyKeeps(env: Env, master: seq<byte>, t: Table, n: nat, generations: seq<nat>, id: int)
    requires Invariant(env, master, t, n, generations)
    ensures Invariant(env, master, Destroy(t, id), n, generations)
  {
    if InRange(id) && t.slots[id - 1].active {
      SlotReplaced(env, master, t, n, generations, id - 1, Erase(t.slots[id - 1]), Destroy(t, id));
    }
  }

  lemma {:induction false} CleanupKeeps(env: Env, master: seq<byte>, t: Table, n: nat, generations: seq<nat>,
                                        now: int, i: nat)
    requires Invariant(env, master, t, n, generations)
    requires forall k :: 0 <= k < i && k < |t.slots| ==> !Expired(t.slots[k], now)
    ensures var t' := CleanupFrom(t, now, i);
            Invariant(env, master, t', n, generations) &&
            forall k :: 0 <= k < |t'.slots| ==> !Expired(t'.slots[k], now)
    decreases |t.slots| - i
  {
    if i < |t.slots| {
      if Expired(t.slots[i], now) {
        var next := Closed(t, i, Expire(t.slots[i]));
        SlotReplaced(env, master, t, n, generations, i, Expire(t.slots[i]), next);
        CleanupKeeps(env, master, next, n, generations, now, i + 1);
      } else {
        CleanupKeeps(env, master, t, n, generations, now, i + 1);
      }
    }
  }

  lemma RotateKeeps(env: Env, master: seq<byte>, t: Table, n: nat, generations: seq<nat>)
    requires Invariant(env, master, t, n, generations)
    ensures Invariant(env, master, Rotate(env, t), n + 1, generations)
  {
  }

  // ----- Whole runs -----

  datatype Op =
    | OpCreate(keyId: seq<byte>, ttl: int, clock: Clock)
    | OpGet(id: int, now: int)
    | OpDestroy(id: int)
    | OpCleanup(now: int)
    | OpRotate

  ghost function Apply(env: Env, t: Table, op: Op): (r: Table)
    requires Shaped(t)
    ensures Shaped(r)
  {
    match op
    case OpCreate(keyId, ttl, clock) => Create(env, t, keyId, ttl, clock)
    case OpGet(id, now) => Get(t, id, now)
    case OpDestroy(id) => Destroy(t, id)
    case OpCleanup(now) => CleanupShaped(t, now, 0); CleanupFrom(t, now, 0)
    case OpRotate => Rotate(env, t)
  }

  lemma {:induction false} CleanupShaped(t: Table, now: int, i: nat)
    requires Shaped(t)
    ensures Shaped(CleanupFrom(t, now, i))
    decreases |t.slots| - i
  {
    if i < |t.slots| {
      CleanupShaped(if Expired(t.slots[i], now) then Closed(t, i, Expire(t.slots[i])) else t, now, i + 1);
    }
  }

  /** The table a run of operations leads to from initialisation. */
  ghost function Run(env: Env, master: seq<byte>, ops: seq<Op>): (t: Table)
    ensures Shaped(t)
    decreases |ops|
  {
    if ops == [] then Initial(master) else Apply(env, Run(env, master, ops[..|ops| - 1]), ops[|ops| - 1])
  }

  function Rotations(ops: seq<Op>): nat
    decreases |ops|
  {
    if ops == [] then 0 else Rotations(ops[..|ops| - 1]) + if ops[|ops| - 1].OpRotate? then 1 else 0
  }

  /** Opening a slot records the number of rotations so far for it, nothing else records anything. */
  function Recorded(t: Table, n: nat, generations: seq<nat>, op: Op): (g: seq<nat>)
    ensures |g| == |generations|
  {
    if op.OpCreate? && 0 < CreateId(t, op.keyId) <= |generations|
    then generations[CreateId(t, op.keyId) - 1 := n] else generations
  }

  /** How many rotations a run contained before it last opened each slot. */
  ghost function Generations(env: Env, master: seq<byte>, ops: seq<Op>): (g: seq<nat>)
    ensures |g| == MAX_SESSION_KEYS
    decreases |ops|
  {
    if ops == [] then seq(MAX_SESSION_KEYS, i => 0)
    else
      var init := ops[..|ops| - 1];
      Recorded(Run(env, master, init), Rotations(init), Generations(env, master, init), ops[|ops| - 1])
  }

  lemma ApplyKeeps(env: Env, master: seq<byte>, t: Table, n: nat, generations: seq<nat>, op: Op)
    requires Invariant(env, master, t, n, generations)
    ensures Invariant(env, master, Apply(env, t, op), n + (if op.OpRotate? then 1 else 0),
                      Recorded(t, n, generations, op))
  {
    match op
    case OpCreate(keyId, ttl, clock) => CreateKeeps(env, master, t, n, generations, keyId, ttl, clock);
    case OpGet(id, now) => GetKeeps(env, master, t, n, generations, id, now);
    case OpDestroy(id) => DestroyKeeps(env, master, t, n, generations, id);
    case OpCleanup(now) => CleanupKeeps(env, master, t, n, generations, now, 0);
    case OpRotate => RotateKeeps(env, master, t, n, generations);
  }

  lemma RunOneMore(env: Env, master: seq<byte>, ops: seq<Op>, op: Op)
    ensures Run(env, master, ops + [op]) == Apply(env, Run(env, master, ops), op)
    ensures Rotations(ops + [op]) == Rotations(ops) + if op.OpRotate? then 1 else 0
    ensures Generations(env, master, ops + [op]) ==
            Recorded(Run(env, master, ops), Rotations(ops), Generations(env, master, ops), op)
  {
    assert (ops + [op])[..|ops|] == ops;
  }

  /** Every run meets the invariant, with as many rotations as it contains, and every active slot
      holds the keys of the master key that was current when it was opened. */
  lemma {:induction false} RunInvariant(env: Env, master: seq<byte>, ops: seq<Op>)
    ensures Invariant(env, master, Run(env, master, ops), Rotations(ops), Generations(env, master, ops))
    decreases |ops|
  {
    if ops == [] {
      InitialInvariant(env, master);
    } else {
      var init, op := ops[..|ops| - 1], ops[|ops| - 1];
      RunInvariant(env, master, init);
      ApplyKeeps(env, master, Run(env, master, init), Rotations(init), Generations(env, master, init), op);
      RunOneMore(env, master, init, op);
      assert ops == init + [op];
    }
  }

  /** After these operations the next one opens slot i. */
  ghost predicate Opens(env: Env, master: seq<byte>, ops: seq<Op>, op: Op, i: nat) {
    op.OpCreate? && CreateId(Run(env, master, ops), op.keyId) == i + 1
  }

  /** After the first operations none of the later ones opens slot i. */
  ghost predicate StaysOpened(env: Env, master: seq<byte>, ops: seq<Op>, later: seq<Op>, i: nat)
    decreases |later|
  {
    later == [] ||
    (StaysOpened(env, master, ops, later[..|later| - 1], i) &&
     !Opens(env, master, ops + later[..|later| - 1], later[|later| - 1], i))
  }

  lemma GenerationElsewhere(env: Env, master: seq<byte>, ops: seq<Op>, op: Op, i: nat)
    requires i < MAX_SESSION_KEYS && !Opens(env, master, ops, op, i)
    ensures Generations(env, master, ops + [op])[i] == Generations(env, master, ops)[i]
  {
    RunOneMore(env, master, ops, op);
  }

  lemma {:induction false} GenerationStays(env: Env, master: seq<byte>, ops: seq<Op>, later: seq<Op>, i: nat)
    requires i < MAX_SESSION_KEYS && StaysOpened(env, master, ops, later, i)
    ensures Generations(env, master, ops + later)[i] == Generations(env, master, ops)[i]
    decreases |later|
  {
    if later == [] {
      assert ops + later == ops;
    } else {
      var init, op := later[..|later| - 1], later[|later| - 1];
      GenerationStays(env, master, ops, init, i);
      GenerationElsewhere(env, master, ops + init, op, i);
      assert later == init + [op];
      ConcatAssociates(ops, init, [op]);
    }
  }

  /** Whatever happens after slot i was opened, rotations included: while it is active and not opened
      anew, it holds the keys derived from the master key that was current at its opening. */
  lemma KeysOfOpening(env: Env, master: seq<byte>, ops: seq<Op>, create: Op, later: seq<Op>, i: nat)
    requires i < MAX_SESSION_KEYS && Opens(env, master, ops, create, i)
    requires StaysOpened(env, master, ops + [create], later, i)
    ensures var s := Run(env, master, ops + [create] + later).slots[i];
            s.active ==> s.keyIdLen <= |s.keyId| &&
                         s.keys == Derived(env, MasterAfter(env, master, Rotations(ops)), s.keyId[..s.keyIdLen])
  {
    RunOneMore(env, master, ops, create);
    GenerationStays(env, master, ops + [create], later, i);
    RunInvariant(env, master, ops + [create] + later);
  }

  // ----- An opened session stays usable -----

  /** The operation neither destroys the session nor reads a clock past its expiry on its behalf. */
  predicate LeavesOpen(op: Op, id: int, expiresAt: int) {
    match op
    case OpCreate(keyId, ttl, clock) => true
    case OpGet(other, now) => other == id ==> now <= expiresAt
    case OpDestroy(other) => other != id
    case OpCleanup(now) => now <= expiresAt
    case OpRotate => true
  }

  /** Slot i is open until the given time with the given keys. */
  predicate OpenWith(t: Table, i: nat, expiresAt: int, keys: KeyPair) {
    i < |t.slots| && t.slots[i].active && t.slots[i].expiresAt == expiresAt && t.slots[i].keys == keys
  }

  lemma ApplyLeavesOpen(env: Env, t: Table, op: Op, i: nat, expiresAt: int, keys: KeyPair)
    requires Shaped(t) && OpenWith(t, i, expiresAt, keys) && LeavesOpen(op, i + 1, expiresAt)
    ensures OpenWith(Apply(env, t, op), i, expiresAt, keys)
  {
    match op
    case OpCreate(keyId, ttl, clock) => CreateOpens(env, t, keyId, ttl, clock);
    case OpGet(id, now) => GetUses(t, id, now);
    case OpDestroy(id) => DestroyCloses(t, id);
    case OpCleanup(now) => CleanupCloses(t, now, 0);
    case OpRotate => RotateAdvances(env, t);
  }

  lemma OneMoreLeavesOpen(env: Env, master: seq<byte>, ops: seq<Op>, op: Op, i: nat, expiresAt: int, keys: KeyPair)
    requires OpenWith(Run(env, master, ops), i, expiresAt, keys) && LeavesOpen(op, i + 1, expiresAt)
    ensures OpenWith(Run(env, master, ops + [op]), i, expiresAt, keys)
  {
    ApplyLeavesOpen(env, Run(env, master, ops), op, i, expiresAt, keys);
    RunOneMore(env, master, ops, op);
  }

  lemma {:induction false} RunLeavesOpen(env: Env, master: seq<byte>, ops: seq<Op>, later: seq<Op>, i: nat,
                                         expiresAt: int, keys: KeyPair)
    requires OpenWith(Run(env, master, ops), i, expiresAt, keys)
    requires forall k :: 0 <= k < |later| ==> LeavesOpen(later[k], i + 1, expiresAt)
    ensures OpenWith(Run(env, master, ops + later), i, expiresAt, keys)
    decreases |later|
  {
    if later == [] {
      assert ops + later == ops;
    } else {
      var init, op := later[..|later| - 1], later[|later| - 1];
      RunLeavesOpen(env, master, ops, init, i, expiresAt, keys);
      OneMoreLeavesOpen(env, master, ops + init, op, i, expiresAt, keys);
      assert later == init + [op];
      ConcatAssociates(ops, init, [op]);
    }
  }

  /** An identifier handed out can be fetched until its expiry passes, whatever else happens, rotations
      included, and gives the keys derived from the master key current when it was handed out. */
  lemma CreatedIsLive(env: Env, master: seq<byte>, ops: seq<Op>, keyId: seq<byte>, ttl: int, clock: Clock,
                      later: seq<Op>, now: int)
    requires CreateId(Run(env, master, ops), keyId) != 0 && now <= clock.expires + ttl
    requires var id := CreateId(Run(env, master, ops), keyId);
             forall k :: 0 <= k < |later| ==> LeavesOpen(later[k], id, clock.expires + ttl)
    ensures var id := CreateId(Run(env, master, ops), keyId);
            var t' := Run(env, master, ops + [OpCreate(keyId, ttl, clock)] + later);
            GetOk(t', id, now) &&
            t'.slots[id - 1].keys == env.kdf(MasterAfter(env, master, Rotations(ops)),
                                             env.salt + if |keyId| > 32 then keyId[..32] else keyId)
  {
    var t, create := Run(env, master, ops), OpCreate(keyId, ttl, clock);
    var i := CreateId(t, keyId) - 1;
    RunInvariant(env, master, ops);
    CreateOpens(env, t, keyId, ttl, clock);
    RunOneMore(env, master, ops, create);
    var keys := env.kdf(MasterAfter(env, master, Rotations(ops)), env.salt + if |keyId| > 32 then keyId[..32] else keyId);
    RunLeavesOpen(env, master, ops + [create], later, i, clock.expires + ttl, keys);
    GetUses(Run(env, master, ops + [create] + later), i + 1, now);
  }

  /** The master key after n rotations, unfolded: each one hashes the key before it with the seed. */
  lemma MasterUnfolds(env: Env, master: seq<byte>, n: nat)
    ensures MasterAfter(env, master, 0) == master
    ensures MasterAfter(env, master, n + 1) == env.sha256(MasterAfter(env, master, n) + env.rotationSeed)
  {
  }

  // ----- The global tables -----

  class SessionManager {
    const env: Env
    const slots: array<Slot>
    const keyChain: array<seq<byte>>
    var count: int
    var created: nat
    var destroyed: nat
    var current: nat

    ghost function Snapshot(): Table
      reads this, slots, keyChain
    {
      Table(slots[..], count, created, destroyed, keyChain[..], current)
    }

    /** Initialisation on zeroed globals. */
    constructor (env: Env, master: seq<byte>)
      ensures Snapshot() == Initial(master) && this.env == env && fresh(slots) && fresh(keyChain)
    {
      this.env := env;
      slots := new Slot[MAX_SESSION_KEYS](_ => ZeroSlot());
      keyChain := new seq<byte>[MAX_KEY_ROTATIONS](i => if i == 0 then master else Zeros(KEY_BYTES));
      count, created, destroyed, current := 0, 0, 0, 0;
    }

    method CreateSession(keyId: seq<byte>, ttl: int, clock: Clock) returns (id: nat)
      requires Shaped(Snapshot())
      modifies this, slots
      ensures id == CreateId(old(Snapshot()), keyId)
      ensures Snapshot() == Create(env, old(Snapshot()), keyId, ttl, clock)
    {
      ghost var t := Snapshot();
      if |keyId| > MAX_KEY_ID || count >= MAX_SESSION_KEYS { return 0; }
      var slot := -1;
      var i := 0;
      while i < MAX_SESSION_KEYS
        invariant 0 <= i <= MAX_SESSION_KEYS && slot == -1
        invariant FirstFree(t.slots, 0) == FirstFree(t.slots, i)
        invariant Snapshot() == t
      {
        assert slots[i] == t.slots[i];
        if !slots[i].active {
          slot := i;
          break;
        }
        i := i + 1;
      }
      if slot == -1 { return 0; }
      var was := slots[slot];
      assert was == t.slots[slot] && keyChain[current] == t.keyChain[t.current];
      var s := Slot(Derived(env, keyChain[current], keyId), keyId + was.keyId[|keyId|..], |keyId|,
                    clock.created, clock.expires + ttl, clock.used, 0, true);
      slots[slot] := s;
      count, created := count + 1, created + 1;
      assert slots[..] == t.slots[slot := s];
      id := slot + 1;
    }

    method GetSessionKey(id: int, now: int) returns (ok: bool, keys: KeyPair)
      requires Shaped(Snapshot())
      modifies this, slots
      ensures ok <==> GetOk(old(Snapshot()), id, now)
      ensures ok ==> keys == old(slots[id - 1].keys)
      ensures Snapshot() == Get(old(Snapshot()), id, now)
    {
      ghost var t := Snapshot();
      ok, keys := false, ZeroKeys();
      if !InRange(id) { return; }
      var idx := id - 1;
      assert slots[idx] == t.slots[idx];
      if !slots[idx].active { return; }
      if now > slots[idx].expiresAt {
        slots[idx] := Expire(slots[idx]);
        count, destroyed := count - 1, destroyed + 1;
        assert slots[..] == t.slots[idx := Expire(t.slots[idx])];
        return;
      }
      ok, keys := true, slots[idx].keys;
      slots[idx] := slots[idx].(lastUsedAt := now, useCount := slots[idx].useCount + 1);
      assert slots[..] == Get(t, id, now).slots;
    }

    method DestroySession(id: int)
      requires Shaped(Snapshot())
      modifies this, slots
      ensures Snapshot() == Destroy(old(Snapshot()), id)
    {
      ghost var t := Snapshot();
      if !InRange(id) { return; }
      var idx := id - 1;
      assert slots[idx] == t.slots[idx];
      if slots[idx].active {
        slots[idx] := Erase(slots[idx]);
        count, destroyed := count - 1, destroyed + 1;
        assert slots[..] == t.slots[idx := Erase(t.slots[idx])];
      }
    }

    method CleanupExpiredSessions(now: int)
      requires Shaped(Snapshot())
      modifies this, slots
      ensures Snapshot() == CleanupFrom(old(Snapshot()), now, 0)
    {
      ghost var target := CleanupFrom(Snapshot(), now, 0);
      for i := 0 to MAX_SESSION_KEYS
        invariant |slots[..]| == MAX_SESSION_KEYS
        invariant CleanupFrom(Snapshot(), now, i) == target
      {
        ghost var t := Snapshot();
        assert slots[i] == t.slots[i];
        if slots[i].active && now > slots[i].expiresAt {
          slots[i] := Expire(slots[i]);
          count, destroyed := count - 1, destroyed + 1;
          assert slots[..] == t.slots[i := Expire(t.slots[i])];
        }
      }
    }

    method RotateMasterKey()
      requires Shaped(Snapshot())
      modifies this, keyChain
      ensures Snapshot() == Rotate(env, old(Snapshot()))
    {
      ghost var t := Snapshot();
      var next := (current + 1) % MAX_KEY_ROTATIONS;
      var newKey := env.sha256(keyChain[current] + env.rotationSeed);
      keyChain[next] := newKey;
      current := next;
      assert keyChain[..] == t.keyChain[next := newKey];
    }
  }
}
