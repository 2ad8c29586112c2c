/** Counter mode and GCM as the bank library runs them, for any block cipher and any GHASH. */
module CounterMode {
  import opened Options
  import opened Words

  const BLOCK := 16
  const IV_BYTES := 12
  const MAX_DATA := 10 * 1024 * 1024

  type Block = b: seq<byte> | |b| == BLOCK witness [0, 0, 0, 0, 0, 0, 0, 0, 0, 0, 0, 0, 0, 0, 0, 0]
  type Cipher = (seq<byte>, Block) -> Block
  type Ghash = (Block, seq<byte>, seq<byte>) -> Block

  datatype Sealed = Sealed(cipher: seq<byte>, tag: Block)

  // ----- The counter -----

  /** Add one to the last byte and carry while bytes roll over to 0. */
  function Incremented(b: seq<byte>): (r: seq<byte>)
    ensures |r| == |b|
    decreases |b|
  {
    if b == [] then []
    else
      var last := b[|b| - 1] + 1;
      (if last == 0 then Incremented(b[..|b| - 1]) else b[..|b| - 1]) + [last]
  }

  lemma ByteSuccessor(b: byte)
    ensures (b + 1) as nat == if b as nat == 255 then 0 else b as nat + 1
    ensures b + 1 == 0 <==> b as nat == 255
  {
  }

  /** The carry is addition of one modulo 256^n. */
  lemma {:induction false} IncrementedAddsOne(b: seq<byte>)
    ensures Value(Incremented(b)) == if Value(b) + 1 == Pow256(|b|) then 0 else Value(b) + 1
    decreases |b|
  {
    if b != [] {
      var init, last := b[..|b| - 1], b[|b| - 1];
      var r := Incremented(b);
      ByteSuccessor(last);
      IncrementedAddsOne(init);
      ValueBound(init);
      assert r[..|b| - 1] == if last + 1 == 0 then Incremented(init) else init;
    }
  }

  function Counter(icb: seq<byte>, n: nat): (r: seq<byte>)
    ensures |r| == |icb|
    decreases n
  {
    if n == 0 then icb else Incremented(Counter(icb, n - 1))
  }

  lemma {:induction false} CounterValue(icb: seq<byte>, n: nat)
    requires Value(icb) + n < Pow256(|icb|)
    ensures Value(Counter(icb, n)) == Value(icb) + n
    decreases n
  {
    if n > 0 {
      var previous := Counter(icb, n - 1);
      CounterValue(icb, n - 1);
      IncrementedAddsOne(previous);
      assert Value(Incremented(previous)) == Value(previous) + 1;
    }
  }

  /** The increment of section 6.2 of NIST SP 800-38D: only the last 32 bits count. */
  function Inc32(b: Block): Block {
    b[..IV_BYTES] + NextWord(b[IV_BYTES..])
  }

  function NextWord(low: seq<byte>): (r: seq<byte>)
    ensures |r| == 4
  {
    BigEndian((Value(low) + 1) % TWO_TO_THE_32, 4)
  }

  function J0(iv: seq<byte>): Block
    requires |iv| == IV_BYTES
  {
    iv + [0, 0, 0, 1]
  }

  function Inc32Times(b: Block, n: nat): Block
    decreases n
  {
    if n == 0 then b else Inc32(Inc32Times(b, n - 1))
  }

  lemma {:induction false} IncrementedInPlace(iv: seq<byte>, low: seq<byte>)
    requires Value(low) + 1 < Pow256(|low|)
    ensures Incremented(iv + low) == iv + Incremented(low)
    decreases |low|
  {
    if low != [] {
      var init, last := low[..|low| - 1], low[|low| - 1];
      ByteSuccessor(last);
      assert (iv + low)[..|iv + low| - 1] == iv + init;
      if last + 1 == 0 {
        ValueBound(init);
        IncrementedInPlace(iv, init);
      }
    }
  }

  /** Started at J0, the full-width carry and inc32 agree for the first 2^32 - 2 blocks. */
  lemma {:induction false} CounterIsInc32(iv: seq<byte>, n: nat)
    requires |iv| == IV_BYTES && n + 1 < TWO_TO_THE_32
    ensures Counter(J0(iv), n) == iv + BigEndian(n + 1, 4) == Inc32Times(J0(iv), n)
    decreases n
  {
    if n == 0 {
      LastWordOne();
      assert Counter(J0(iv), 0) == J0(iv) == Inc32Times(J0(iv), 0);
    } else {
      CounterIsInc32(iv, n - 1);
      NextCounter(iv, n);
    }
  }

  lemma NextCounter(iv: seq<byte>, n: nat)
    requires |iv| == IV_BYTES && n + 1 < TWO_TO_THE_32
    ensures Incremented(iv + BigEndian(n, 4)) == iv + BigEndian(n + 1, 4)
    ensures Inc32(iv + BigEndian(n, 4)) == iv + BigEndian(n + 1, 4)
  {
    var low := BigEndian(n, 4);
    Pow256s();
    ValueOfBigEndian(n, 4);
    NextLow(n, 4);
    IncrementedInPlace(iv, low);
    Inc32OfParts(iv, low);
  }

  lemma Inc32OfParts(iv: seq<byte>, low: seq<byte>)
    requires |iv| == IV_BYTES && |low| == 4 && Value(low) + 1 < TWO_TO_THE_32
    ensures Inc32(iv + low) == iv + BigEndian(Value(low) + 1, 4)
  {
    SplitConcat(iv, low);
    NextWordFits(low);
  }

  lemma NextWordFits(low: seq<byte>)
    requires Value(low) + 1 < TWO_TO_THE_32
    ensures NextWord(low) == BigEndian(Value(low) + 1, 4)
  {
    FitsWord(Value(low) + 1);
  }

  lemma FitsWord(n: nat)
    requires n < TWO_TO_THE_32
    ensures n % TWO_TO_THE_32 == n
  {
  }

  lemma NextLow(n: nat, k: nat)
    requires n + 1 < Pow256(k)
    ensures Incremented(BigEndian(n, k)) == BigEndian(n + 1, k)
  {
    var low, next := BigEndian(n, k), BigEndian(n + 1, k);
    ValueOfBigEndian(n, k);
    ValueOfBigEndian(n + 1, k);
    IncrementedAddsOne(low);
    ValueInjective(Incremented(low), next);
  }

  lemma LastWordOne()
    ensures [0, 0, 0, 1] == BigEndian(1, 4)
  {
  }

  lemma WordsDiffer(m: nat, n: nat)
    requires m < n < TWO_TO_THE_32
    ensures BigEndian(m, 4) != BigEndian(n, 4)
  {
    Pow256s();
    ValueOfBigEndian(m, 4);
    ValueOfBigEndian(n, 4);
  }

  /** No counter block repeats, and none is J0. */
  lemma CountersDistinct(iv: seq<byte>, m: nat, n: nat)
    requires |iv| == IV_BYTES && m < n && n + 1 < TWO_TO_THE_32
    ensures Counter(J0(iv), m) != Counter(J0(iv), n)
  {
    CounterIsInc32(iv, m);
    CounterIsInc32(iv, n);
    WordsDiffer(m + 1, n + 1);
    SamePrefix(iv, BigEndian(m + 1, 4), BigEndian(n + 1, 4));
  }

  lemma SamePrefix(iv: seq<byte>, a: seq<byte>, b: seq<byte>)
    requires a != b
    ensures iv + a != iv + b
  {
    SplitConcat(iv, a);
    SplitConcat(iv, b);
  }

  /** The number of counter blocks a message needs. */
  function BlocksOf(length: nat): nat {
    (length + BLOCK - 1) / BLOCK
  }

  /** Every message the library accepts stays far below the 32-bit limit. */
  lemma AcceptedMessagesFit(length: nat)
    requires length <= MAX_DATA
    ensures BlocksOf(length) + 1 < TWO_TO_THE_32
  {
  }

  // ----- Counter mode -----

  /** Byte k of the key stream. */
  function KeyStream(e: Block -> Block, icb: Block, k: nat): byte {
    e(Counter(icb, k / BLOCK + 1))[k % BLOCK]
  }

  function Gctr(e: Block -> Block, icb: Block, x: seq<byte>): (y: seq<byte>)
    ensures |y| == |x|
    ensures forall k :: 0 <= k < |x| ==> y[k] == x[k] ^ KeyStream(e, icb, k)
  {
    seq(|x|, k requires 0 <= k < |x| => x[k] ^ KeyStream(e, icb, k))
  }

  /** Counter mode undoes itself, for any block function. */
  lemma GctrInvolution(e: Block -> Block, icb: Block, x: seq<byte>)
    ensures Gctr(e, icb, Gctr(e, icb, x)) == x
  {
    var y := Gctr(e, icb, x);
    forall k | 0 <= k < |x|
      ensures Gctr(e, icb, y)[k] == x[k]
    {
      XorTwice(x[k], KeyStream(e, icb, k));
    }
  }

  lemma CarryStep(w: seq<byte>, tail: seq<byte>)
    requires w != []
    ensures var init, last := w[..|w| - 1], w[|w| - 1] + 1;
            Incremented(w) + tail == (if last == 0 then Incremented(init) else init) + ([last] + tail)
  {
  }

  lemma SetLast(w: seq<byte>, tail: seq<byte>, v: byte)
    requires w != []
    ensures (w + tail)[|w| - 1 := v] == w[..|w| - 1] + ([v] + tail)
  {
  }

  /** The carry loop on the counter block, from the last byte towards the first. */
  method Increment(cb: array<byte>)
    requires cb.Length == BLOCK
    modifies cb
    ensures cb[..] == Incremented(old(cb[..]))
  {
    ghost var target, w, tail := Incremented(cb[..]), cb[..], [];
    var j := 15;
    while j >= 0
      invariant -1 <= j <= 15 && |w| == j + 1
      invariant cb[..] == w + tail
      invariant target == Incremented(w) + tail
    {
      CarryStep(w, tail);
      ghost var before, v := cb[..], w[j] + 1;
      SetLast(w, tail, v);
      assert cb[j] == before[j] == w[j];
      cb[j] := cb[j] + 1;
      assert cb[..] == before[j := v];
      w, tail := w[..j], [v] + tail;
      if cb[j] != 0 {
        return;
      }
      j := j - 1;
    }
    assert w == [];
  }

  /** The block loop; the output goes into y. */
  method RunGctr(e: Block -> Block, icb: Block, x: seq<byte>, y: array<byte>)
    requires |x| <= y.Length
    modifies y
    ensures y[..|x|] == Gctr(e, icb, x)
    ensures y[|x|..] == old(y[|x|..])
  {
    var nBlocks, lastBlockLen := (|x| + 15) / 16, |x| % 16;
    var cb := new byte[BLOCK](i requires 0 <= i < BLOCK => icb[i]);
    assert cb[..] == icb;
    var i := 0;
    while i < nBlocks
      invariant 0 <= i <= nBlocks && fresh(cb)
      invariant cb[..] == Counter(icb, i)
      invariant forall k :: 0 <= k < 16 * i && k < |x| ==> y[k] == x[k] ^ KeyStream(e, icb, k)
      invariant y[|x|..] == old(y[|x|..])
    {
      Increment(cb);
      BlockLengths(|x|, i);
      assert cb[..] == Counter(icb, i + 1);
      var enc := e(cb[..]);
      var blockLen := if i == nBlocks - 1 && lastBlockLen > 0 then lastBlockLen else 16;
      XorBlockInto(e, icb, x, y, i, enc, blockLen);
      i := i + 1;
    }
  }

  lemma BlockLengths(n: nat, i: nat)
    requires i < (n + 15) / 16
    ensures var last := i == (n + 15) / 16 - 1;
            var blockLen := if last && n % 16 > 0 then n % 16 else 16;
            16 * i + blockLen <= n && (last ==> 16 * i + blockLen == n) && (!last ==> blockLen == 16)
  {
  }

  method XorBlockInto(ghost e: Block -> Block, ghost icb: Block, x: seq<byte>, y: array<byte>, i: nat, enc: Block,
                      blockLen: nat)
    requires blockLen <= BLOCK && 16 * i + blockLen <= |x| <= y.Length
    requires enc == e(Counter(icb, i + 1))
    modifies y
    ensures forall k :: 0 <= k < 16 * i ==> y[k] == old(y[k])
    ensures forall k :: 16 * i <= k < 16 * i + blockLen ==> y[k] == x[k] ^ KeyStream(e, icb, k)
    ensures forall k :: 16 * i + blockLen <= k < y.Length ==> y[k] == old(y[k])
  {
    for j := 0 to blockLen
      invariant forall k :: 0 <= k < 16 * i ==> y[k] == old(y[k])
      invariant forall k :: 16 * i <= k < 16 * i + j ==> y[k] == x[k] ^ KeyStream(e, icb, k)
      invariant forall k :: 16 * i + j <= k < y.Length ==> y[k] == old(y[k])
    {
      assert (16 * i + j) / BLOCK == i && (16 * i + j) % BLOCK == j;
      y[16 * i + j] := x[16 * i + j] ^ enc[j];
    }
  }

  // ----- GCM -----

  function XorBlocks(a: Block, b: Block): Block {
    seq(BLOCK, k requires 0 <= k < BLOCK => a[k] ^ b[k])
  }

  const ZERO_BLOCK: Block := [0, 0, 0, 0, 0, 0, 0, 0, 0, 0, 0, 0, 0, 0, 0, 0]

  function Tag(aes: Cipher, ghash: Ghash, key: seq<byte>, iv: seq<byte>, aad: seq<byte>, cipher: seq<byte>): Block
    requires |iv| == IV_BYTES
  {
    XorBlocks(ghash(aes(key, ZERO_BLOCK), aad, cipher), aes(key, J0(iv)))
  }

  function Encrypt(aes: Cipher, ghash: Ghash, key: seq<byte>, iv: seq<byte>, aad: seq<byte>, plain: seq<byte>)
    : Option<Sealed>
  {
    if |iv| != IV_BYTES then None
    else
      var cipher := Gctr(b => aes(key, b), J0(iv), plain);
      Some(Sealed(cipher, Tag(aes, ghash, key, iv, aad, cipher)))
  }

  function Decrypt(aes: Cipher, ghash: Ghash, key: seq<byte>, iv: seq<byte>, aad: seq<byte>, s: Sealed)
    : Option<seq<byte>>
  {
    if |iv| != IV_BYTES || s.tag != Tag(aes, ghash, key, iv, aad, s.cipher) then None
    else Some(Gctr(b => aes(key, b), J0(iv), s.cipher))
  }

  lemma DecryptOfEncrypt(aes: Cipher, ghash: Ghash, key: seq<byte>, iv: seq<byte>, aad: seq<byte>, plain: seq<byte>)
    requires |iv| == IV_BYTES
    ensures var s := Encrypt(aes, ghash, key, iv, aad, plain);
            s.Some? && |s.value.cipher| == |plain| &&
            Decrypt(aes, ghash, key, iv, aad, s.value) == Some(plain)
  {
    GctrInvolution(b => aes(key, b), J0(iv), plain);
  }

  /** Only what encryption produces is accepted: decryption succeeds with a plaintext exactly
      when encrypting that plaintext gives the ciphertext and tag. */
  lemma DecryptAcceptsOnlyEncrypted(aes: Cipher, ghash: Ghash, key: seq<byte>, iv: seq<byte>, aad: seq<byte>,
                                    s: Sealed, plain: seq<byte>)
    ensures Decrypt(aes, ghash, key, iv, aad, s) == Some(plain) <==>
            Encrypt(aes, ghash, key, iv, aad, plain) == Some(s)
  {
    if |iv| == IV_BYTES {
      var e := (b: Block) => aes(key, b);
      GctrInvolution(e, J0(iv), plain);
      GctrInvolution(e, J0(iv), s.cipher);
    }
  }

  // ----- The sealed message byte by byte -----

  /** Byte k of the ciphertext is masked with the encryption of the vector and block number k / 16 + 2. */
  lemma CipherBytes(aes: Cipher, ghash: Ghash, key: seq<byte>, iv: seq<byte>, aad: seq<byte>, plain: seq<byte>)
    requires |plain| <= 10 * 1024 * 1024
    ensures Encrypt(aes, ghash, key, iv, aad, plain) == None <==> |iv| != 12
    ensures |iv| == 12 ==>
              var cipher := Encrypt(aes, ghash, key, iv, aad, plain).value.cipher;
              |cipher| == |plain| &&
              forall k :: 0 <= k < |plain| ==> cipher[k] == plain[k] ^ aes(key, iv + BigEndian(k / 16 + 2, 4))[k % 16]
  {
    if |iv| == IV_BYTES {
      forall k | 0 <= k < |plain|
        ensures KeyStream(b => aes(key, b), J0(iv), k) == aes(key, iv + BigEndian(k / 16 + 2, 4))[k % 16]
      {
        CounterIsInc32(iv, k / 16 + 1);
      }
    }
  }

  lemma XorIff(a: byte, b: byte, m: byte)
    ensures a ^ m == b ^ m <==> a == b
  {
    XorTwice(a, m);
    XorTwice(b, m);
  }

  /** What authenticates a message: the hash, under the encryption of the zero block, of the additional
      data and the ciphertext. */
  function Authenticator(aes: Cipher, ghash: Ghash, key: seq<byte>, aad: seq<byte>, cipher: seq<byte>): Block {
    ghash(aes(key, [0, 0, 0, 0, 0, 0, 0, 0, 0, 0, 0, 0, 0, 0, 0, 0]), aad, cipher)
  }

  lemma SameBlock(a: Block, b: Block)
    requires forall k :: 0 <= k < 16 ==> a[k] == b[k]
    ensures a == b
  {
  }

  /** A ciphertext is accepted with exactly one tag, the authenticator masked with the encryption of the
      vector and block number 1. */
  lemma AcceptedTagIff(aes: Cipher, ghash: Ghash, key: seq<byte>, iv: seq<byte>, aad: seq<byte>, s: Sealed)
    requires |iv| == 12
    ensures Decrypt(aes, ghash, key, iv, aad, s).Some? <==>
            forall k :: 0 <= k < 16 ==>
              s.tag[k] == ghash(aes(key, [0, 0, 0, 0, 0, 0, 0, 0, 0, 0, 0, 0, 0, 0, 0, 0]), aad, s.cipher)[k] ^
                          aes(key, iv + [0, 0, 0, 1])[k]
  {
    var tag := Tag(aes, ghash, key, iv, aad, s.cipher);
    assert forall k :: 0 <= k < 16 ==>
             tag[k] == Authenticator(aes, ghash, key, aad, s.cipher)[k] ^ aes(key, iv + [0, 0, 0, 1])[k];
    if forall k :: 0 <= k < 16 ==> s.tag[k] == tag[k] {
      SameBlock(s.tag, tag);
    }
  }

  /** Additional data is authenticated: a sealed message opens under other data if and only if the hash
      does not tell the two apart. */
  lemma AadAuthenticated(aes: Cipher, ghash: Ghash, key: seq<byte>, iv: seq<byte>, aad: seq<byte>, aad': seq<byte>,
                         plain: seq<byte>)
    requires |iv| == 12
    ensures var s := Encrypt(aes, ghash, key, iv, aad, plain);
            var zero: Block := [0, 0, 0, 0, 0, 0, 0, 0, 0, 0, 0, 0, 0, 0, 0, 0];
            s.Some? &&
            Decrypt(aes, ghash, key, iv, aad', s.value) ==
            if ghash(aes(key, zero), aad', s.value.cipher) == ghash(aes(key, zero), aad, s.value.cipher) then Some(plain)
            else None
  {
    var s := Encrypt(aes, ghash, key, iv, aad, plain).value;
    DecryptOfEncrypt(aes, ghash, key, iv, aad, plain);
    SameMaskIff(Authenticator(aes, ghash, key, aad, s.cipher), Authenticator(aes, ghash, key, aad', s.cipher),
                aes(key, J0(iv)));
  }

  lemma SameMaskIff(a: Block, b: Block, mask: Block)
    ensures XorBlocks(a, mask) == XorBlocks(b, mask) <==> a == b
  {
    var x, y := XorBlocks(a, mask), XorBlocks(b, mask);
    if x == y {
      forall k | 0 <= k < 16
        ensures a[k] == b[k]
      {
        XorIff(a[k], b[k], mask[k]);
        assert x[k] == y[k];
      }
      SameBlock(a, b);
    }
  }

  method GcmEncrypt(aes: Cipher, ghash: Ghash, key: seq<byte>, iv: seq<byte>, aad: seq<byte>, plain: seq<byte>)
    returns (r: Option<Sealed>)
    ensures r == Encrypt(aes, ghash, key, iv, aad, plain)
  {
    if |iv| != IV_BYTES { return None; }
    var cipher := new byte[|plain|](_ => 0);
    RunGctr(b => aes(key, b), J0(iv), plain, cipher);
    assert cipher[..|plain|] == cipher[..];
    r := Some(Sealed(cipher[..], Tag(aes, ghash, key, iv, aad, cipher[..])));
  }

  /** The tag is compared byte by byte, all 16 of them, before anything is decrypted. */
  method GcmDecrypt(aes: Cipher, ghash: Ghash, key: seq<byte>, iv: seq<byte>, aad: seq<byte>, s: Sealed)
    returns (r: Option<seq<byte>>)
    ensures r == Decrypt(aes, ghash, key, iv, aad, s)
  {
    if |iv| != IV_BYTES { return None; }
    var expected := Tag(aes, ghash, key, iv, aad, s.cipher);
    var tagOk := true;
    for i := 0 to BLOCK
      invariant tagOk <==> s.tag[..i] == expected[..i]
    {
      if s.tag[i] != expected[i] {
        tagOk := false;
      }
    }
    assert s.tag[..BLOCK] == s.tag && expected[..BLOCK] == expected;
    if !tagOk { return None; }
    var plain := new byte[|s.cipher|](_ => 0);
    RunGctr(b => aes(key, b), J0(iv), s.cipher, plain);
    assert plain[..|s.cipher|] == plain[..];
    r := Some(plain[..]);
  }
}
