/** Sealed envelopes: data encrypted under a session key, with a checksum and a key fingerprint. */
module Envelopes {
  import opened Options
  import opened Words
  import opened Sessions
  import opened CounterMode
  import Crc32

  datatype Suite = Suite(aes: Cipher, ghash: Ghash)

  datatype Envelope = Envelope(
    encrypted: seq<byte>, iv: seq<byte>, tag: Block, authTag: seq<byte>, timestamp: int, crc: bv32)

  /** Identifies the session keys without revealing them. */
  function Fingerprint(env: Env, keys: KeyPair): seq<byte> {
    env.sha256(keys.session + keys.hmac)
  }

  // ----- Creation -----

  predicate CreateOk(t: Table, plain: seq<byte>, id: int, iv: seq<byte>, now1: int, now2: int)
    requires Shaped(t)
  {
    |plain| <= MAX_DATA - 1024 && |iv| == IV_BYTES &&
    GetOk(t, id, now1) && GetOk(Get(t, id, now1), id, now2)
  }

  /** The keys are fetched twice, at two clock readings; each fetch may close an expired session. */
  function AfterCreate(t: Table, plain: seq<byte>, id: int, now1: int, now2: int): Table
    requires Shaped(t)
  {
    if |plain| > MAX_DATA - 1024 then t
    else if !GetOk(t, id, now1) then Get(t, id, now1)
    else Get(Get(t, id, now1), id, now2)
  }

  function Created(suite: Suite, env: Env, keys: KeyPair, plain: seq<byte>, aad: seq<byte>, iv: seq<byte>,
                   now: int): Envelope
    requires |iv| == IV_BYTES
  {
    var s := Encrypt(suite.aes, suite.ghash, keys.session, iv, aad, plain).value;
    Envelope(s.cipher, iv, s.tag, Fingerprint(env, keys), now, Crc32.Crc(s.cipher))
  }

  // ----- Extraction -----

  /** The first active slot from i on whose keys have the fingerprint. */
  function FirstMatch(env: Env, slots: seq<Slot>, authTag: seq<byte>, i: nat): (m: nat)
    requires i <= |slots|
    ensures i <= m <= |slots|
    ensures m < |slots| ==> slots[m].active && Fingerprint(env, slots[m].keys) == authTag
    decreases |slots| - i
  {
    if i == |slots| || (slots[i].active && Fingerprint(env, slots[i].keys) == authTag) then i
    else FirstMatch(env, slots, authTag, i + 1)
  }

  function Extracted(suite: Suite, env: Env, t: Table, e: Envelope, aad: seq<byte>, now: int): Option<seq<byte>>
    requires Shaped(t)
  {
    if Crc32.Crc(e.encrypted) != e.crc then None
    else
      var m := FirstMatch(env, t.slots, e.authTag, 0);
      if m == |t.slots| || |e.encrypted| > MAX_DATA || !GetOk(t, m + 1, now) then None
      else Decrypt(suite.aes, suite.ghash, t.slots[m].keys.session, e.iv, aad, Sealed(e.encrypted, e.tag))
  }

  function AfterExtract(env: Env, t: Table, e: Envelope, now: int): Table
    requires Shaped(t)
  {
    var m := FirstMatch(env, t.slots, e.authTag, 0);
    if Crc32.Crc(e.encrypted) != e.crc || m == |t.slots| || |e.encrypted| > MAX_DATA then t
    else Get(t, m + 1, now)
  }

  // ----- Round trip -----

  lemma {:induction false} MatchExists(env: Env, slots: seq<Slot>, authTag: seq<byte>, i: nat, j: nat)
    requires i <= j < |slots| && slots[j].active && Fingerprint(env, slots[j].keys) == authTag
    ensures FirstMatch(env, slots, authTag, i) <= j
    decreases |slots| - i
  {
    if i < j { MatchExists(env, slots, authTag, i + 1, j); }
  }

  /** No two different key pairs held have the same fingerprint. */
  ghost predicate FingerprintsDistinct(env: Env, t: Table) {
    forall i, j :: 0 <= i < |t.slots| && 0 <= j < |t.slots| && t.slots[i].active && t.slots[j].active &&
                   Fingerprint(env, t.slots[i].keys) == Fingerprint(env, t.slots[j].keys)
                   ==> t.slots[i].keys == t.slots[j].keys
  }

  lemma FetchKeepsSession(t: Table, id: int, now1: int, now2: int)
    requires Shaped(t) && GetOk(t, id, now1) && GetOk(Get(t, id, now1), id, now2)
    ensures var t' := Get(Get(t, id, now1), id, now2);
            Shaped(t') && t'.slots[id - 1].active && t'.slots[id - 1].keys == t.slots[id - 1].keys
  {
  }

  /** Extracting a just-created envelope gives back the plaintext exactly when the first slot that
      holds its keys, which may be another than the one it was created with, has not expired. */
  lemma RoundTripIff(suite: Suite, env: Env, t: Table, plain: seq<byte>, aad: seq<byte>, id: int, iv: seq<byte>,
                     now1: int, now2: int, stamp: int, now3: int)
    requires Shaped(t) && CreateOk(t, plain, id, iv, now1, now2)
    requires FingerprintsDistinct(env, AfterCreate(t, plain, id, now1, now2))
    ensures var t', e := AfterCreate(t, plain, id, now1, now2),
                         Created(suite, env, t.slots[id - 1].keys, plain, aad, iv, stamp);
            Shaped(t') &&
            var first := FirstMatch(env, t'.slots, e.authTag, 0);
            first < |t'.slots| &&
            (Extracted(suite, env, t', e, aad, now3) == Some(plain) <==> now3 <= t'.slots[first].expiresAt)
  {
    var t', keys := AfterCreate(t, plain, id, now1, now2), t.slots[id - 1].keys;
    var e := Created(suite, env, keys, plain, aad, iv, stamp);
    FetchKeepsSession(t, id, now1, now2);
    MatchExists(env, t'.slots, e.authTag, 0, id - 1);
    var first := FirstMatch(env, t'.slots, e.authTag, 0);
    assert t'.slots[first].keys == keys;
    DecryptOfEncrypt(suite.aes, suite.ghash, keys.session, iv, aad, plain);
    assert Decrypt(suite.aes, suite.ghash, keys.session, iv, aad, Sealed(e.encrypted, e.tag)) == Some(plain);
  }

  /** In particular it does whenever no active slot is past its expiry. */
  lemma RoundTrip(suite: Suite, env: Env, t: Table, plain: seq<byte>, aad: seq<byte>, id: int, iv: seq<byte>,
                  now1: int, now2: int, stamp: int, now3: int)
    requires Shaped(t) && CreateOk(t, plain, id, iv, now1, now2)
    requires FingerprintsDistinct(env, AfterCreate(t, plain, id, now1, now2))
    requires forall i :: 0 <= i < |t.slots| ==> !Expired(AfterCreate(t, plain, id, now1, now2).slots[i], now3)
    ensures var t', e := AfterCreate(t, plain, id, now1, now2),
                         Created(suite, env, t.slots[id - 1].keys, plain, aad, iv, stamp);
            Shaped(t') && Extracted(suite, env, t', e, aad, now3) == Some(plain)
  {
    RoundTripIff(suite, env, t, plain, aad, id, iv, now1, now2, stamp, now3);
  }

  /** Ciphertext damaged inside 32 consecutive bits is never even tried. */
  lemma DamagedEnvelopeRejected(suite: Suite, env: Env, t: Table, e: Envelope, changed: seq<byte>, aad: seq<byte>,
                                now: int, offset: nat)
    requires Shaped(t) && e.crc == Crc32.Crc(e.encrypted)
    requires |changed| == |e.encrypted| && Crc32.DataBits(changed) != Crc32.DataBits(e.encrypted)
    requires forall j :: 0 <= j < 8 * |changed| && Crc32.DataBits(changed)[j] != Crc32.DataBits(e.encrypted)[j]
               ==> offset <= j < offset + 32
    ensures Extracted(suite, env, t, e.(encrypted := changed), aad, now) == None
    ensures AfterExtract(env, t, e.(encrypted := changed), now) == t
  {
    Crc32.BitBurstChangesCrc(changed, e.encrypted, offset);
  }

  /** Opened with other additional data, a just-created envelope is refused, unless the hash of the cipher
      mode does not tell the data apart. */
  lemma ChangedAadRefused(suite: Suite, env: Env, t: Table, plain: seq<byte>, aad: seq<byte>, aad': seq<byte>, id: int,
                          iv: seq<byte>, now1: int, now2: int, stamp: int, now3: int)
    requires Shaped(t) && CreateOk(t, plain, id, iv, now1, now2)
    requires FingerprintsDistinct(env, AfterCreate(t, plain, id, now1, now2))
    requires var keys := t.slots[id - 1].keys;
             var h := suite.aes(keys.session, ZERO_BLOCK);
             var cipher := Created(suite, env, keys, plain, aad, iv, stamp).encrypted;
             suite.ghash(h, aad', cipher) != suite.ghash(h, aad, cipher)
    ensures var t', e := AfterCreate(t, plain, id, now1, now2),
                         Created(suite, env, t.slots[id - 1].keys, plain, aad, iv, stamp);
            Shaped(t') && Extracted(suite, env, t', e, aad', now3) == None
  {
    var t', keys := AfterCreate(t, plain, id, now1, now2), t.slots[id - 1].keys;
    var e := Created(suite, env, keys, plain, aad, iv, stamp);
    FetchKeepsSession(t, id, now1, now2);
    MatchExists(env, t'.slots, e.authTag, 0, id - 1);
    var first := FirstMatch(env, t'.slots, e.authTag, 0);
    assert t'.slots[first].keys == keys;
    AadAuthenticated(suite.aes, suite.ghash, keys.session, iv, aad, aad', plain);
  }

  // ----- The two calls field by field -----

  /** What an envelope carries: data sealed under the session key of the slot, and the hash of both keys. */
  lemma CreatedFields(suite: Suite, env: Env, keys: KeyPair, plain: seq<byte>, aad: seq<byte>, iv: seq<byte>, now: int)
    requires |iv| == 12
    ensures var e := Created(suite, env, keys, plain, aad, iv, now);
            Encrypt(suite.aes, suite.ghash, keys.session, iv, aad, plain) == Some(Sealed(e.encrypted, e.tag)) &&
            e.iv == iv && e.authTag == env.sha256(keys.session + keys.hmac) && e.timestamp == now &&
            e.crc == Crc32.Crc(e.encrypted)
  {
  }

  /** Creation succeeds for data of at most 10 MB less 1024 bytes under a session live at both fetches. */
  lemma CreateOkIff(t: Table, plain: seq<byte>, id: int, iv: seq<byte>, now1: int, now2: int)
    requires Shaped(t) && |iv| == 12
    ensures CreateOk(t, plain, id, iv, now1, now2) <==>
            |plain| <= 10_484_736 && 1 <= id <= 32 && t.slots[id - 1].active &&
            now1 <= t.slots[id - 1].expiresAt && now2 <= t.slots[id - 1].expiresAt
  {
  }

  /** Slot m is the lowest active one whose keys hash to the tag. */
  predicate LowestMatch(env: Env, t: Table, authTag: seq<byte>, m: nat) {
    m < |t.slots| && t.slots[m].active && env.sha256(t.slots[m].keys.session + t.slots[m].keys.hmac) == authTag &&
    forall j :: 0 <= j < m && t.slots[j].active ==> env.sha256(t.slots[j].keys.session + t.slots[j].keys.hmac) != authTag
  }

  lemma {:induction false} FirstMatchIs(env: Env, t: Table, authTag: seq<byte>, i: nat)
    requires i <= |t.slots|
    requires forall j :: 0 <= j < i && t.slots[j].active ==>
               env.sha256(t.slots[j].keys.session + t.slots[j].keys.hmac) != authTag
    ensures var m := FirstMatch(env, t.slots, authTag, i);
            if m < |t.slots| then LowestMatch(env, t, authTag, m)
            else forall j :: 0 <= j < |t.slots| && t.slots[j].active ==>
                   env.sha256(t.slots[j].keys.session + t.slots[j].keys.hmac) != authTag
    decreases |t.slots| - i
  {
    if i < |t.slots| && !(t.slots[i].active && Fingerprint(env, t.slots[i].keys) == authTag) {
      FirstMatchIs(env, t, authTag, i + 1);
    }
  }

  /** Extraction gives a plaintext if and only if the checksum is right, some active slot has the keys, the
      lowest such one is not past its expiry, the size is within 10 MB, and the cipher mode opens the data
      under the session key of that slot. */
  lemma ExtractedIff(suite: Suite, env: Env, t: Table, e: Envelope, aad: seq<byte>, now: int, plain: seq<byte>)
    requires Shaped(t)
    ensures Extracted(suite, env, t, e, aad, now) == Some(plain) <==>
            e.crc == Crc32.Crc(e.encrypted) && |e.encrypted| <= 10_485_760 &&
            exists m: nat :: LowestMatch(env, t, e.authTag, m) && now <= t.slots[m].expiresAt &&
                        Decrypt(suite.aes, suite.ghash, t.slots[m].keys.session, e.iv, aad, Sealed(e.encrypted, e.tag)) ==
                        Some(plain)
  {
    FirstMatchIs(env, t, e.authTag, 0);
    var first := FirstMatch(env, t.slots, e.authTag, 0);
    forall m: nat | LowestMatch(env, t, e.authTag, m)
      ensures m == first
    {
      if first < |t.slots| {
        assert LowestMatch(env, t, e.authTag, first);
      }
    }
  }

  /** Creation counts two uses of its session and touches nothing else. */
  lemma CreationUses(t: Table, plain: seq<byte>, id: int, iv: seq<byte>, now1: int, now2: int)
    requires Shaped(t) && CreateOk(t, plain, id, iv, now1, now2)
    ensures var s, t' := t.slots[id - 1], AfterCreate(t, plain, id, now1, now2);
            OthersUnchanged(t, t', id - 1) && KeyChainUnchanged(t, t') && t'.count == t.count &&
            t'.slots[id - 1] == s.(lastUsedAt := now2, useCount := s.useCount + 2)
  {
    GetUses(t, id, now1);
    GetUses(Get(t, id, now1), id, now2);
  }

  /** Extraction fetches the keys of the lowest matching slot, and only if the checksum and size are right. */
  lemma ExtractionFetches(env: Env, t: Table, e: Envelope, now: int, m: nat)
    requires Shaped(t)
    ensures AfterExtract(env, t, e, now) != t ==> e.crc == Crc32.Crc(e.encrypted) && |e.encrypted| <= 10_485_760
    ensures e.crc == Crc32.Crc(e.encrypted) && |e.encrypted| <= 10_485_760 && LowestMatch(env, t, e.authTag, m) ==>
              AfterExtract(env, t, e, now) == Get(t, m + 1, now)
  {
    FirstMatchIs(env, t, e.authTag, 0);
    var first := FirstMatch(env, t.slots, e.authTag, 0);
    if first < |t.slots| {
      assert LowestMatch(env, t, e.authTag, first);
    }
  }

  // ----- The calls -----

  method CreateEnvelope(suite: Suite, mgr: SessionManager, plain: seq<byte>, aad: seq<byte>, id: int, iv: seq<byte>,
                        now1: int, now2: int, stamp: int)
    returns (e: Option<Envelope>)
    requires Shaped(mgr.Snapshot()) && |iv| == IV_BYTES
    modifies mgr, mgr.slots
    ensures mgr.Snapshot() == AfterCreate(old(mgr.Snapshot()), plain, id, now1, now2)
    ensures e == if CreateOk(old(mgr.Snapshot()), plain, id, iv, now1, now2)
                 then Some(Created(suite, mgr.env, old(mgr.slots[id - 1].keys), plain, aad, iv, stamp)) else None
  {
    if |plain| > MAX_DATA - 1024 { return None; }
    ghost var t := mgr.Snapshot();
    var ok, keys := mgr.GetSessionKey(id, now1);
    if !ok { return None; }
    var s := GcmEncrypt(suite.aes, suite.ghash, keys.session, iv, aad, plain);
    ghost var t1 := mgr.Snapshot();
    ok, keys := mgr.GetSessionKey(id, now2);
    if !ok { return None; }
    assert keys == t1.slots[id - 1].keys == t.slots[id - 1].keys;
    var crc := Crc32.BankCrc32(s.value.cipher);
    e := Some(Envelope(s.value.cipher, iv, s.value.tag, Fingerprint(mgr.env, keys), stamp, crc));
  }

  method ExtractEnvelope(suite: Suite, mgr: SessionManager, e: Envelope, aad: seq<byte>, now: int)
    returns (plain: Option<seq<byte>>)
    requires Shaped(mgr.Snapshot())
    modifies mgr, mgr.slots
    ensures plain == Extracted(suite, mgr.env, old(mgr.Snapshot()), e, aad, now)
    ensures mgr.Snapshot() == AfterExtract(mgr.env, old(mgr.Snapshot()), e, now)
  {
    ghost var t := mgr.Snapshot();
    var crc := Crc32.BankCrc32(e.encrypted);
    if crc != e.crc { return None; }
    var sessionId := -1;
    var i := 0;
    while i < MAX_SESSION_KEYS
      invariant 0 <= i <= MAX_SESSION_KEYS && sessionId == -1 && mgr.Snapshot() == t
      invariant FirstMatch(mgr.env, t.slots, e.authTag, 0) == FirstMatch(mgr.env, t.slots, e.authTag, i)
    {
      assert mgr.slots[i] == t.slots[i];
      if mgr.slots[i].active && Fingerprint(mgr.env, mgr.slots[i].keys) == e.authTag {
        sessionId := i + 1;
        break;
      }
      i := i + 1;
    }
    if sessionId == -1 { return None; }
    if |e.encrypted| > MAX_DATA { return None; }
    var ok, keys := mgr.GetSessionKey(sessionId, now);
    if !ok { return None; }
    assert keys == t.slots[sessionId - 1].keys;
    plain := GcmDecrypt(suite.aes, suite.ghash, keys.session, e.iv, aad, Sealed(e.encrypted, e.tag));
  }
}
