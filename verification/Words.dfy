/** Machine bytes and big-endian integers shared by the codecs. */
module Words {
  import opened Remainders

  type byte = bv8

  type uint8 = x: int | 0 <= x < 256
  type uint32 = x: int | 0 <= x < TWO_TO_THE_32
  type uint64 = x: int | 0 <= x < TWO_TO_THE_64

  const TWO_TO_THE_16: int := 0x1_0000
  const TWO_TO_THE_32: int := 0x1_0000_0000
  const TWO_TO_THE_64: int := 0x1_0000_0000_0000_0000

  function ByteOf(n: nat): byte {
    (n % 256) as byte
  }

  function Zeros(n: nat): (z: seq<byte>)
    ensures |z| == n
    decreases n
  {
    if n == 0 then [] else Zeros(n - 1) + [0]
  }

  lemma {:induction false} ZerosAreZero(n: nat)
    ensures forall k :: 0 <= k < n ==> Zeros(n)[k] == 0
    decreases n
  {
    if n > 0 { ZerosAreZero(n - 1); }
  }

  lemma XorTwice(a: byte, b: byte)
    ensures (a ^ b) ^ b == a
  {
  }

  /** A string every character of which is one byte. */
  predicate ByteString(s: string) {
    forall i :: 0 <= i < |s| ==> s[i] as int < 256
  }

  /** The bytes of a string, one for each character. */
  function Bytes(s: string): (b: seq<byte>)
    ensures |b| == |s|
    decreases |s|
  {
    if s == "" then [] else [ByteOf(s[0] as nat)] + Bytes(s[1..])
  }

  lemma {:induction false} BytesInjective(a: string, b: string)
    requires ByteString(a) && ByteString(b) && Bytes(a) == Bytes(b)
    ensures a == b
    decreases |a|
  {
    if a != "" {
      assert Bytes(a)[0] == Bytes(b)[0] && Bytes(a)[1..] == Bytes(b)[1..];
      ByteOfValue(a[0] as nat);
      ByteOfValue(b[0] as nat);
      BytesInjective(a[1..], b[1..]);
      assert a == [a[0]] + a[1..] && b == [b[0]] + b[1..];
    }
  }

  lemma SplitConcat<T>(a: seq<T>, b: seq<T>)
    ensures (a + b)[..|a|] == a && (a + b)[|a|..] == b
  {
  }

  lemma ConcatAssociates<T>(a: seq<T>, b: seq<T>, c: seq<T>)
    ensures a + (b + c) == (a + b) + c
  {
  }

  lemma ByteRoundTrip(x: nat)
    requires x < 256
    ensures (x as byte) as nat == x
  {
    var y := (x as byte) as int;
    if x < y {
      assert false;
    } else if y < x {
      assert false;
    }
  }

  lemma ByteOfValue(n: nat)
    ensures ByteOf(n) as nat == n % 256
  {
    ByteRoundTrip(n % 256);
  }

  /** The number a byte string denotes, most significant byte first. */
  function Value(bytes: seq<byte>): (n: nat)
    decreases |bytes|
  {
    if bytes == [] then 0 else 256 * Value(bytes[..|bytes| - 1]) + bytes[|bytes| - 1] as nat
  }

  /** n in k big-endian bytes, reduced modulo 256^k. */
  function BigEndian(n: nat, k: nat): (bytes: seq<byte>)
    ensures |bytes| == k
    decreases k, n
  {
    if k == 0 then [] else BigEndian(n / 256, k - 1) + [ByteOf(n)]
  }

  function Pow2(k: nat): (p: nat)
    ensures p >= 1
  {
    if k == 0 then 1 else 2 * Pow2(k - 1)
  }

  function Pow256(k: nat): (p: nat)
    ensures p >= 1
  {
    if k == 0 then 1 else 256 * Pow256(k - 1)
  }

  lemma {:induction false} ValueBound(bytes: seq<byte>)
    ensures Value(bytes) < Pow256(|bytes|)
    decreases |bytes|
  {
    if bytes != [] { ValueBound(bytes[..|bytes| - 1]); }
  }

  lemma {:induction false} ValueOfBigEndian(n: nat, k: nat)
    requires n < Pow256(k)
    ensures Value(BigEndian(n, k)) == n
    decreases k
  {
    if k > 0 {
      ValueOfBigEndian(n / 256, k - 1);
      var init := BigEndian(n / 256, k - 1);
      ByteOfValue(n);
      assert (init + [ByteOf(n)])[..k - 1] == init;
    }
  }

  /** k bytes hold a number modulo 256^k. */
  lemma {:induction false} BigEndianWraps(n: nat, k: nat)
    ensures BigEndian(n % Pow256(k), k) == BigEndian(n, k)
    decreases k
  {
    if k > 0 {
      var p := Pow256(k - 1);
      RemainderInTwo(n, p);
      BigEndianWraps(n / 256, k - 1);
    }
  }

  lemma RemainderInTwo(n: nat, p: nat)
    requires p >= 1
    ensures n % (256 * p) / 256 == n / 256 % p
    ensures n % (256 * p) % 256 == n % 256
  {
    var q, r := n / 256, n % 256;
    var u, v := q / p, q % p;
    assert q == u * p + v;
    assert n == 256 * (u * p + v) + r == u * (256 * p) + (256 * v + r);
    RemainderUnique(n, 256 * p, u, 256 * v + r);
  }

  lemma {:induction false} BigEndianOfValue(bytes: seq<byte>)
    ensures BigEndian(Value(bytes), |bytes|) == bytes
    decreases |bytes|
  {
    if bytes != [] {
      var init, last := bytes[..|bytes| - 1], bytes[|bytes| - 1];
      BigEndianOfValue(init);
      assert Value(bytes) / 256 == Value(init);
      assert Value(bytes) % 256 == last as nat;
      assert bytes == init + [last];
    }
  }

  lemma ValueInjective(a: seq<byte>, b: seq<byte>)
    requires |a| == |b| && Value(a) == Value(b)
    ensures a == b
  {
    BigEndianOfValue(a);
    BigEndianOfValue(b);
  }

  lemma Pow256s()
    ensures Pow256(2) == TWO_TO_THE_16
    ensures Pow256(4) == TWO_TO_THE_32
    ensures Pow256(8) == TWO_TO_THE_64
  {
    assert Pow256(1) == 256 && Pow256(3) == 256 * Pow256(2);
    assert Pow256(6) == 256 * Pow256(5) && Pow256(7) == 256 * Pow256(6);
  }
}
