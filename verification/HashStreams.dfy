/** The buffered, incremental forms of SHA-256 and SHA-1 against the one-shot definition of
    FIPS 180-4. The compression functions are parameters. */
module HashStreams {
  import opened Words
  import opened MerkleTrees

  const BLOCK := 64

  type Compression<!S> = (S, seq<byte>) -> S

  // ----- The standard -----

  /** The compression function folded over whole blocks. */
  function Folded<S>(compress: Compression<S>, iv: S, blocks: seq<byte>): S
    requires |blocks| % BLOCK == 0
    decreases |blocks|
  {
    if blocks == [] then iv
    else compress(Folded(compress, iv, blocks[..|blocks| - BLOCK]), blocks[|blocks| - BLOCK..])
  }

  /** The number of zero bytes between the marker and the length field. */
  function ZeroCount(length: nat): nat {
    if length % BLOCK < 56 then 55 - length % BLOCK else 119 - length % BLOCK
  }

  /** Section 5.1.1 asks for the least such number. */
  lemma ZeroCountIsLeast(length: nat, k: nat)
    ensures (length + 1 + ZeroCount(length)) % BLOCK == 56
    ensures (length + 1 + k) % BLOCK == 56 ==> ZeroCount(length) <= k
  {
  }

  /** Marker, zeros, and the length in bits as a 64-bit big-endian number. */
  function Padding(length: nat): (p: seq<byte>)
    ensures |p| == ZeroCount(length) + 9
  {
    [0x80] + Zeros(ZeroCount(length)) + BigEndian(8 * length, 8)
  }

  lemma PaddingFillsBlock(length: nat)
    ensures (length + (ZeroCount(length) + 9)) % BLOCK == 0
  {
  }

  function Padded(message: seq<byte>): (p: seq<byte>)
    ensures |p| % BLOCK == 0
  {
    PaddingFillsBlock(|message|);
    message + Padding(|message|)
  }

  /** A padded message is the message, one marker byte, and zeros up to the last eight bytes. */
  lemma PaddedParts(message: seq<byte>)
    ensures var p, n := Padded(message), |message|;
            |p| % 64 == 0 && n + 9 <= |p| < n + 73 && p[..n] == message && p[n] == 0x80 &&
            (forall k :: n < k < |p| - 8 ==> p[k] == 0) && p[|p| - 8..] == BigEndian(8 * n, 8)
  {
    var zeros := Zeros(ZeroCount(|message|));
    ZerosAreZero(ZeroCount(|message|));
    var p, n := Padded(message), |message|;
    assert p == message + ([0x80] + zeros + BigEndian(8 * n, 8));
    forall k | n < k < |p| - 8
      ensures p[k] == 0
    {
      assert p[k] == zeros[k - n - 1];
    }
  }

  lemma FoldedOne<S>(compress: Compression<S>, iv: S, block: seq<byte>)
    requires |block| == 64
    ensures Folded(compress, iv, block) == compress(iv, block)
  {
    assert block[..0] == [] && block[0..] == block;
  }

  /** Folding takes the blocks of 64 bytes from the front, each with the state the ones before it left. */
  lemma {:induction false} FoldedFromFront<S>(compress: Compression<S>, iv: S, block: seq<byte>, rest: seq<byte>)
    requires |block| == 64 && |rest| % 64 == 0
    ensures |block + rest| % 64 == 0 && Folded(compress, iv, []) == iv
    ensures Folded(compress, iv, block + rest) == Folded(compress, compress(iv, block), rest)
    decreases |rest|
  {
    if rest == [] {
      FoldedOne(compress, iv, block);
      assert block + rest == block;
    } else {
      var init, last := rest[..|rest| - 64], rest[|rest| - 64..];
      FoldedFromFront(compress, iv, block, init);
      FoldOneMore(compress, iv, block + init, last);
      FoldOneMore(compress, compress(iv, block), init, last);
      assert rest == init + last;
      ConcatAssociates(block, init, last);
    }
  }

  /** Below 2^61 bytes the length field holds the length itself. */
  lemma LengthFieldExact(message: seq<byte>)
    requires |message| < 0x2000_0000_0000_0000
    ensures Value(Padded(message)[|Padded(message)| - 8..]) == 8 * |message|
  {
    Pow256s();
    ValueOfBigEndian(8 * |message|, 8);
    var head := message + ([0x80] + Zeros(ZeroCount(|message|)));
    assert Padded(message) == head + BigEndian(8 * |message|, 8);
  }

  // ----- Between two calls -----

  function Full(n: nat): (f: nat)
    ensures f <= n && f % BLOCK == 0 && n - f == n % BLOCK
  {
    n - n % BLOCK
  }

  /** The state after a message of any length: its whole blocks have been compressed. */
  function Chained<S>(compress: Compression<S>, iv: S, message: seq<byte>): S {
    Folded(compress, iv, message[..Full(|message|)])
  }

  function Pending(message: seq<byte>): (p: seq<byte>)
    ensures |p| == |message| % BLOCK
  {
    message[Full(|message|)..]
  }

  lemma OneMoreByte<S>(compress: Compression<S>, iv: S, message: seq<byte>, b: byte)
    ensures var block := Pending(message) + [b];
            if |block| == BLOCK then
              Pending(message + [b]) == [] &&
              Chained(compress, iv, message + [b]) == compress(Chained(compress, iv, message), block)
            else
              Pending(message + [b]) == block &&
              Chained(compress, iv, message + [b]) == Chained(compress, iv, message)
  {
    var m, f := message + [b], Full(|message|);
    if |Pending(message)| + 1 == BLOCK {
      assert Full(|m|) == |m| == f + BLOCK;
      assert m[..|m|] == m && m[..f] == message[..f] && m[f..] == Pending(message) + [b];
    } else {
      assert Full(|m|) == f;
      assert m[..f] == message[..f];
    }
  }

  // ----- SHA-256: a fixed buffer filled byte by byte -----

  datatype Words8 = Words8(a: uint32, b: uint32, c: uint32, d: uint32, e: uint32, f: uint32, g: uint32, h: uint32)

  const IV256 := Words8(0x6a09e667, 0xbb67ae85, 0x3c6ef372, 0xa54ff53a, 0x510e527f, 0x9b05688c, 0x1f83d9ab, 0x5be0cd19)

  function DigestBytes(s: Words8): (d: seq<byte>)
    ensures |d| == 32
  {
    BigEndian(s.a, 4) + BigEndian(s.b, 4) + BigEndian(s.c, 4) + BigEndian(s.d, 4)
    + BigEndian(s.e, 4) + BigEndian(s.f, 4) + BigEndian(s.g, 4) + BigEndian(s.h, 4)
  }

  /** The first 32 bits behind the point of the square root of p. */
  ghost predicate RootFraction(p: nat, w: uint32) {
    exists k: nat :: k * k < p < (k + 1) * (k + 1) && IsRoot(p, k * TWO_TO_THE_32 + w)
  }

  predicate IsRoot(p: nat, r: nat) {
    r * r <= p * TWO_TO_THE_64 < (r + 1) * (r + 1)
  }

  lemma RootOfPrime(p: nat, k: nat, w: uint32, r: nat)
    requires k * k < p < (k + 1) * (k + 1) && r == k * TWO_TO_THE_32 + w && IsRoot(p, r)
    ensures RootFraction(p, w)
  {
  }

  lemma InitialStateFirst()
    ensures RootFraction(2, IV256.a) && RootFraction(3, IV256.b) && RootFraction(5, IV256.c) && RootFraction(7, IV256.d)
  {
    RootOfPrime(2, 1, 0x6a09e667, 0x1_6a09e667);
    RootOfPrime(3, 1, 0xbb67ae85, 0x1_bb67ae85);
    RootOfPrime(5, 2, 0x3c6ef372, 0x2_3c6ef372);
    RootOfPrime(7, 2, 0xa54ff53a, 0x2_a54ff53a);
  }

  /** Section 5.3.3 of FIPS 180-4: the initial state is taken from the square roots of the first eight primes. */
  lemma InitialState256()
    ensures RootFraction(2, IV256.a) && RootFraction(3, IV256.b) && RootFraction(5, IV256.c) && RootFraction(7, IV256.d)
    ensures RootFraction(11, IV256.e) && RootFraction(13, IV256.f) && RootFraction(17, IV256.g) && RootFraction(19, IV256.h)
  {
    InitialStateFirst();
    RootOfPrime(11, 3, 0x510e527f, 0x3_510e527f);
    RootOfPrime(13, 3, 0x9b05688c, 0x3_9b05688c);
    RootOfPrime(17, 4, 0x1f83d9ab, 0x4_1f83d9ab);
    RootOfPrime(19, 4, 0x5be0cd19, 0x4_5be0cd19);
  }

  /** The digest lists the eight words in order, each with its most significant byte first. */
  lemma DigestWords(s: Words8)
    ensures var d := DigestBytes(s);
            Value(d[0..4]) == s.a && Value(d[4..8]) == s.b && Value(d[8..12]) == s.c && Value(d[12..16]) == s.d &&
            Value(d[16..20]) == s.e && Value(d[20..24]) == s.f && Value(d[24..28]) == s.g && Value(d[28..32]) == s.h
  {
    var d := DigestBytes(s);
    assert d[0..4] == BigEndian(s.a, 4) && d[4..8] == BigEndian(s.b, 4);
    assert d[8..12] == BigEndian(s.c, 4) && d[12..16] == BigEndian(s.d, 4);
    assert d[16..20] == BigEndian(s.e, 4) && d[20..24] == BigEndian(s.f, 4);
    assert d[24..28] == BigEndian(s.g, 4) && d[28..32] == BigEndian(s.h, 4);
    WordValue(s.a);
    WordValue(s.b);
    WordValue(s.c);
    WordValue(s.d);
    WordValue(s.e);
    WordValue(s.f);
    WordValue(s.g);
    WordValue(s.h);
  }

  lemma WordValue(w: uint32)
    ensures Value(BigEndian(w, 4)) == w
  {
    Pow256s();
    ValueOfBigEndian(w, 4);
  }

  class Sha256 {
    const compress: Compression<Words8>
    var state: Words8
    const buffer: array<byte>
    var count: nat
    ghost var message: seq<byte>

    ghost predicate Valid()
      reads this, buffer
    {
      buffer.Length == BLOCK && count == |message| % TWO_TO_THE_64 &&
      state == Chained(compress, IV256, message) &&
      buffer[..count % BLOCK] == Pending(message)
    }

    constructor (compress: Compression<Words8>)
      ensures Valid() && fresh(buffer) && message == [] && this.compress == compress
    {
      this.compress := compress;
      state, count, message := IV256, 0, [];
      buffer := new byte[BLOCK](_ => 0);
    }

    method PutByte(b: byte)
      requires Valid()
      modifies this, buffer
      ensures Valid() && message == old(message) + [b]
    {
      OneMoreByte(compress, IV256, message, b);
      CountOneMore(|message|);
      ghost var pending := Pending(message);
      var at := count % BLOCK;
      buffer[at] := b;
      assert buffer[..at + 1] == pending + [b];
      count := (count + 1) % TWO_TO_THE_64;
      message := message + [b];
      if count % BLOCK == 0 {
        assert buffer[..] == buffer[..at + 1];
        state := compress(state, buffer[..]);
      }
    }

    method Update(data: seq<byte>)
      requires Valid()
      modifies this, buffer
      ensures Valid() && message == old(message) + data
    {
      for i := 0 to |data|
        invariant Valid() && message == old(message) + data[..i]
      {
        PutByte(data[i]);
        AppendNext(old(message), data, i);
      }
      assert data[..|data|] == data;
    }

    /** The padding buffer has 64 bytes and is never indexed past its end. */
    method Pad()
      requires Valid()
      modifies this, buffer
      ensures Valid() && message == Padded(old(message))
    {
      CountWraps(|message|);
      var bitLength := count * 8 % TWO_TO_THE_64;
      var used := count % BLOCK;
      var padLength := if used < 56 then 56 - used else 120 - used;
      var padding := new byte[BLOCK](_ => 0);
      WriteMarker(padding, padLength);
      Update(padding[..padLength]);
      WriteLength(padding, bitLength);
      Update(padding[..8]);
      BitLengthWraps(|old(message)|);
      PaddedInTwo(old(message), padLength);
    }

    method Final() returns (hash: seq<byte>)
      requires Valid()
      modifies this, buffer
      ensures hash == DigestBytes(Folded(compress, IV256, Padded(old(message))))
    {
      Pad();
      ChainedWhole(compress, IV256, message);
      hash := DigestBytes(state);
    }
  }

  /** The one-shot call: one update, then the end. */
  method HashSha256(compress: Compression<Words8>, data: seq<byte>) returns (hash: seq<byte>)
    ensures hash == DigestBytes(Folded(compress, IV256, Padded(data)))
  {
    var context := new Sha256(compress);
    context.Update(data);
    assert context.message == data;
    hash := context.Final();
  }

  /** 2^64 is a multiple of the block size, so a counter that wraps keeps its place in the block. */
  lemma CountWraps(n: nat)
    ensures n % TWO_TO_THE_64 % BLOCK == n % BLOCK
  {
  }

  lemma CountOneMore(n: nat)
    ensures (n % TWO_TO_THE_64 + 1) % TWO_TO_THE_64 == (n + 1) % TWO_TO_THE_64
    ensures n % TWO_TO_THE_64 % BLOCK == n % BLOCK
    ensures (n + 1) % TWO_TO_THE_64 % BLOCK == (n + 1) % BLOCK
  {
  }

  lemma BitLengthWraps(n: nat)
    ensures BigEndian(n % TWO_TO_THE_64 * 8 % TWO_TO_THE_64, 8) == BigEndian(n * 8, 8)
  {
    assert n % TWO_TO_THE_64 * 8 % TWO_TO_THE_64 == n * 8 % TWO_TO_THE_64;
    Pow256s();
    BigEndianWraps(n * 8, 8);
  }

  lemma AppendNext(before: seq<byte>, data: seq<byte>, i: nat)
    requires i < |data|
    ensures (before + data[..i]) + [data[i]] == before + data[..i + 1]
  {
  }

  lemma PaddedInTwo(message: seq<byte>, padLength: nat)
    requires padLength == ZeroCount(|message|) + 1
    ensures (message + ([0x80] + Zeros(padLength - 1))) + BigEndian(|message| * 8, 8) == Padded(message)
  {
  }

  lemma ChainedWhole<S>(compress: Compression<S>, iv: S, message: seq<byte>)
    requires |message| % BLOCK == 0
    ensures Chained(compress, iv, message) == Folded(compress, iv, message)
  {
    assert message[..|message|] == message;
  }

  method WriteMarker(padding: array<byte>, padLength: nat)
    requires 0 < padLength <= padding.Length
    modifies padding
    ensures padding[..padLength] == [0x80] + Zeros(padLength - 1)
  {
    forall i | 0 <= i < padLength {
      padding[i] := 0;
    }
    padding[0] := 0x80;
    AsZeros(padding[1..padLength]);
    assert padding[..padLength] == [padding[0]] + padding[1..padLength];
  }

  method WriteLength(padding: array<byte>, bitLength: nat)
    requires padding.Length == BLOCK
    modifies padding
    ensures padding[..8] == BigEndian(bitLength, 8)
  {
    var field := BigEndian(bitLength, 8);
    for i := 0 to 8
      invariant padding[..i] == field[..i]
    {
      padding[i] := field[i];
    }
  }

  lemma {:induction false} AsZeros(z: seq<byte>)
    requires forall i :: 0 <= i < |z| ==> z[i] == 0
    ensures z == Zeros(|z|)
    decreases |z|
  {
    if z != [] { AsZeros(z[..|z| - 1]); }
  }

  // ----- SHA-1: a growing buffer consumed from the front -----

  datatype Words5 = Words5(a: uint32, b: uint32, c: uint32, d: uint32, e: uint32)

  const IV1 := Words5(0x67452301, 0xEFCDAB89, 0x98BADCFE, 0x10325476, 0xC3D2E1F0)

  function HexDigit(d: nat): char
    requires d < 16
  {
    "0123456789abcdef"[d]
  }

  /** The k low hexadecimal digits of n, zero-filled. */
  function Hex(n: nat, k: nat): (h: string)
    ensures |h| == k
    decreases k, n
  {
    if k == 0 then "" else Hex(n / 16, k - 1) + [HexDigit(n % 16)]
  }

  function HexWords(s: Words5): (h: string)
    ensures |h| == 40
  {
    Hex(s.a, 8) + Hex(s.b, 8) + Hex(s.c, 8) + Hex(s.d, 8) + Hex(s.e, 8)
  }

  /** The number hexadecimal digits denote, read from their character codes. */
  function HexValue(h: string): int
    decreases |h|
  {
    if h == "" then 0
    else 16 * HexValue(h[..|h| - 1]) + DigitValue(h[|h| - 1])
  }

  function DigitValue(c: char): int {
    if '0' <= c <= '9' then c as int - 48 else if 'a' <= c <= 'f' then c as int - 87 else -1
  }

  lemma DigitValueOfDigit(d: nat)
    requires d < 16
    ensures DigitValue(HexDigit(d)) == d
  {
  }

  function Pow16(k: nat): (p: nat)
    ensures p >= 1
  {
    if k == 0 then 1 else 16 * Pow16(k - 1)
  }

  lemma {:induction false} HexValueOfHex(n: nat, k: nat)
    requires n < Pow16(k)
    ensures HexValue(Hex(n, k)) == n
    decreases k
  {
    if k > 0 {
      HexValueOfHex(n / 16, k - 1);
      DigitValueOfDigit(n % 16);
      assert Hex(n, k)[..k - 1] == Hex(n / 16, k - 1);
    }
  }

  lemma HexWordValue(w: uint32)
    ensures HexValue(Hex(w, 8)) == w
  {
    assert Pow16(2) == 256 && Pow16(4) == 256 * Pow16(2) && Pow16(6) == 256 * Pow16(4) && Pow16(8) == 256 * Pow16(6);
    HexValueOfHex(w, 8);
  }

  lemma FiveParts(a: string, b: string, c: string, d: string, e: string)
    requires |a| == |b| == |c| == |d| == |e| == 8
    ensures var s := a + b + c + d + e;
            s[0..8] == a && s[8..16] == b && s[16..24] == c && s[24..32] == d && s[32..40] == e
  {
  }

  /** The digest writes the five words in order, eight digits each. */
  lemma HexDigestWords(s: Words5)
    ensures var d := HexWords(s);
            HexValue(d[0..8]) == s.a && HexValue(d[8..16]) == s.b && HexValue(d[16..24]) == s.c &&
            HexValue(d[24..32]) == s.d && HexValue(d[32..40]) == s.e
  {
    var d := HexWords(s);
    var a, b, c, e, f := Hex(s.a, 8), Hex(s.b, 8), Hex(s.c, 8), Hex(s.d, 8), Hex(s.e, 8);
    FiveParts(a, b, c, e, f);
    assert d == a + b + c + e + f;
    HexWordValue(s.a);
    HexWordValue(s.b);
    HexWordValue(s.c);
    HexWordValue(s.d);
    HexWordValue(s.e);
  }

  class Sha1 {
    const compress: Compression<Words5>
    var h: Words5
    var msgLen: nat
    var buffer: seq<byte>
    ghost var message: seq<byte>

    ghost predicate Valid()
      reads this
    {
      msgLen == |message| && h == Chained(compress, IV1, message) && buffer == Pending(message)
    }

    constructor (compress: Compression<Words5>)
      ensures Valid() && message == [] && this.compress == compress
    {
      this.compress := compress;
      h, msgLen, buffer, message := IV1, 0, [], [];
    }

    /** The loop that compresses whole blocks off the front of the buffer. */
    method Consume(ghost consumed: seq<byte>)
      requires |consumed| % BLOCK == 0 && h == Folded(compress, IV1, consumed)
      modifies this`h, this`buffer
      ensures h == Chained(compress, IV1, consumed + old(buffer))
      ensures buffer == Pending(consumed + old(buffer))
    {
      ghost var all, done := consumed + buffer, consumed;
      while |buffer| >= BLOCK
        invariant |done| % BLOCK == 0 && all == done + buffer
        invariant h == Folded(compress, IV1, done)
        decreases |buffer|
      {
        var block := buffer[..BLOCK];
        FoldOneMore(compress, IV1, done, block);
        MoveBlock(done, buffer);
        h := compress(h, block);
        done, buffer := done + block, buffer[BLOCK..];
      }
      NoBlockLeft(compress, IV1, done, buffer);
    }

    method Update(data: seq<byte>)
      requires Valid()
      modifies this
      ensures Valid() && message == old(message) + data
    {
      ghost var consumed := message[..Full(|message|)];
      Resumed(message, data);
      buffer := buffer + data;
      Consume(consumed);
      msgLen := msgLen + |data|;
      message := message + data;
    }

    method PadBuffer()
      requires Valid()
      modifies this`buffer
      ensures buffer == Pending(message) + Padding(|message|)
    {
      var bits := msgLen * 8;
      ghost var length, n := |message|, 0;
      ghost var pending := buffer;
      buffer := buffer + [0x80];
      while |buffer| % BLOCK != 56
        invariant buffer == pending + ([0x80] + Zeros(n)) && n <= ZeroCount(length)
        decreases ZeroCount(length) - n
      {
        ZerosLeft(length, n);
        OneMoreZero(pending, n);
        buffer := buffer + [0];
        n := n + 1;
      }
      ZerosLeft(length, n);
      PaddingAfter(pending, length);
      buffer := buffer + BigEndian(bits, 8);
    }

    method Final() returns (hex: string)
      requires Valid()
      modifies this
      ensures hex == HexWords(Folded(compress, IV1, Padded(old(message))))
    {
      ghost var consumed := message[..Full(|message|)];
      PadBuffer();
      Resumed(message, Padding(|message|));
      Consume(consumed);
      ChainedWhole(compress, IV1, Padded(message));
      hex := HexWords(h);
    }
  }

  lemma Resumed(message: seq<byte>, more: seq<byte>)
    ensures message[..Full(|message|)] + (Pending(message) + more) == message + more
  {
  }

  lemma MoveBlock(done: seq<byte>, rest: seq<byte>)
    requires |rest| >= BLOCK
    ensures done + rest == (done + rest[..BLOCK]) + rest[BLOCK..]
  {
  }

  lemma NoBlockLeft<S>(compress: Compression<S>, iv: S, done: seq<byte>, rest: seq<byte>)
    requires |done| % BLOCK == 0 && |rest| < BLOCK
    ensures Chained(compress, iv, done + rest) == Folded(compress, iv, done)
    ensures Pending(done + rest) == rest
  {
    var all := done + rest;
    assert Full(|all|) == |done|;
    assert all[..|done|] == done && all[|done|..] == rest;
  }

  lemma OneMoreZero(pending: seq<byte>, n: nat)
    ensures pending + ([0x80] + Zeros(n)) + [0] == pending + ([0x80] + Zeros(n + 1))
  {
  }

  lemma PaddingAfter(pending: seq<byte>, length: nat)
    ensures pending + ([0x80] + Zeros(ZeroCount(length))) + BigEndian(length * 8, 8) == pending + Padding(length)
  {
  }

  lemma FoldOneMore<S>(compress: Compression<S>, iv: S, done: seq<byte>, block: seq<byte>)
    requires |done| % BLOCK == 0 && |block| == BLOCK
    ensures |done + block| % BLOCK == 0
    ensures Folded(compress, iv, done + block) == compress(Folded(compress, iv, done), block)
  {
    var all := done + block;
    assert all[..|all| - BLOCK] == done && all[|all| - BLOCK..] == block;
  }

  /** Pushing zeros one at a time stops exactly at the least number. */
  lemma ZerosLeft(length: nat, n: nat)
    requires n <= ZeroCount(length)
    ensures (length % BLOCK + 1 + n) % BLOCK == 56 <==> n == ZeroCount(length)
  {
  }

  // ----- The digest the Merkle trees use -----

  function Sha1Hex(compress: Compression<Words5>, s: string): (h: string)
    ensures |h| == 40
  {
    HexWords(Folded(compress, IV1, Padded(Bytes(s))))
  }

  method HashSha1(compress: Compression<Words5>, s: string) returns (hex: string)
    ensures hex == Sha1Hex(compress, s)
  {
    var context := new Sha1(compress);
    context.Update(Bytes(s));
    assert context.message == Bytes(s);
    hex := context.Final();
  }

  function Sha1Fn(compress: Compression<Words5>): HashFn {
    s => Sha1Hex(compress, s)
  }

  lemma {:induction false} HexIsByteString(n: nat, k: nat)
    ensures ByteString(Hex(n, k))
    decreases k
  {
    if k > 0 { HexIsByteString(n / 16, k - 1); }
  }

  lemma DigestIsByteString(s: Words5)
    ensures ByteString(HexWords(s))
  {
    HexIsByteString(s.a, 8);
    HexIsByteString(s.b, 8);
    HexIsByteString(s.c, 8);
    HexIsByteString(s.d, 8);
    HexIsByteString(s.e, 8);
  }

  /** SHA-1 digests have 40 characters, so the Merkle trees built over them are sound: from a wrong
      value accepted at leaf i, ExtractCollision computes two different byte strings with the same
      SHA-1. */
  lemma MerkleSoundnessForSha1(compress: Compression<Words5>, leaves: seq<string>, i: nat, v: string,
                               proof: seq<string>)
    requires i < |leaves| && Uniform(leaves, 40) && |v| == 40 && |proof| == Depth(|leaves|)
    requires ByteStrings(leaves) && ByteStrings(proof) && ByteString(v)
    requires Fold(Sha1Fn(compress), v, proof, i) == Root(Sha1Fn(compress), leaves)
    ensures var h, c := Sha1Fn(compress), ExtractCollision(Sha1Fn(compress), leaves, i, v, proof);
            v == leaves[i] ||
            (IsCollision(h, c) && ByteString(c.0) && ByteString(c.1) && Bytes(c.0) != Bytes(c.1))
  {
    var h := Sha1Fn(compress);
    forall s
      ensures ByteString(h(s))
    {
      DigestIsByteString(Folded(compress, IV1, Padded(Bytes(s))));
    }
    Soundness(h, leaves, i, v, proof, 40);
    ExtractedByteStrings(h, leaves, i, v, proof);
    var c := ExtractCollision(h, leaves, i, v, proof);
    if Bytes(c.0) == Bytes(c.1) {
      BytesInjective(c.0, c.1);
    }
  }
}
