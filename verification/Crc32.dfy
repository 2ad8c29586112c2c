/** CRC-32 as the bank library computes it bit by bit and as the packet tester computes it from a
    table, with the bursts it is guaranteed to detect. */
module Crc32 {
  import opened Words

  const POLY: bv32 := 0xEDB88320

  function Xor(x: bv32, y: bv32): bv32 {
    x ^ y
  }

  /** One shift of the reflected register. */
  function Step(x: bv32): bv32 {
    (x >> 1) ^ (if x & 1 == 1 then POLY else 0)
  }

  function Steps(x: bv32, n: nat): bv32
    decreases n, x
  {
    if n == 0 then x else Steps(Step(x), n - 1)
  }

  function ByteStep(s: bv32, b: byte): bv32 {
    Steps(Xor(s, b as bv32), 8)
  }

  function ByteState(s: bv32, data: seq<byte>): bv32
    decreases |data|
  {
    if data == [] then s else ByteState(ByteStep(s, data[0]), data[1..])
  }

  function Crc(data: seq<byte>): bv32 {
    !ByteState(0xFFFF_FFFF, data)
  }

  /** The generator of IEEE 802.3, as the set of its powers. */
  predicate IeeePower(p: nat) {
    p in {32, 26, 23, 22, 16, 12, 11, 10, 8, 7, 5, 4, 2, 1, 0}
  }

  /** The constant holds the powers below 32, the highest in its lowest bit. */
  lemma PolynomialIsIeee(p: nat)
    requires p < 32
    ensures (POLY >> (31 - p)) & 1 == 1 <==> IeeePower(p)
  {
  }

  lemma EightUnfolded(x: bv32)
    ensures Steps(x, 8) == Step(Step(Step(Step(Step(Step(Step(Step(x))))))))
  {
    assert Steps(x, 8) == Steps(Step(x), 7) == Steps(Step(Step(x)), 6) == Steps(Step(Step(Step(x))), 5);
    var y := Step(Step(Step(x)));
    assert Steps(y, 5) == Steps(Step(y), 4) == Steps(Step(Step(y)), 3) == Steps(Step(Step(Step(y))), 2);
    var z := Step(Step(Step(y)));
    assert Steps(z, 2) == Steps(Step(z), 1) == Steps(Step(Step(z)), 0) == Step(Step(z));
  }

  lemma NextState(s: bv32, b: byte, next: bv32, rest: seq<byte>)
    requires Step(Step(Step(Step(Step(Step(Step(Step(Xor(s, b as bv32))))))))) == next
    ensures ByteState(s, [b] + rest) == ByteState(next, rest)
  {
    EightUnfolded(Xor(s, b as bv32));
    assert ([b] + rest)[1..] == rest;
  }

  lemma LastFourStates()
    ensures ByteState(0x340A_C5E3, [0x36, 0x37, 0x38, 0x39]) == 0x340B_C6D9
  {
    NextState(0x340AC5E3, 0x36, 0xF68D2C9E, [0x37, 0x38, 0x39]);
    NextState(0xF68D2C9E, 0x37, 0xAFFC9660, [0x38, 0x39]);
    NextState(0xAFFC9660, 0x38, 0x651F2550, [0x39]);
    NextState(0x651F2550, 0x39, 0x340BC6D9, []);
  }

  /** The check value every CRC-32 must give for the digits 1 to 9. */
  lemma CheckValue()
    ensures Crc([0x31, 0x32, 0x33, 0x34, 0x35, 0x36, 0x37, 0x38, 0x39]) == 0xCBF4_3926
  {
    NextState(0xFFFFFFFF, 0x31, 0x7C231048, [0x32, 0x33, 0x34, 0x35, 0x36, 0x37, 0x38, 0x39]);
    NextState(0x7C231048, 0x32, 0xB0ACBB32, [0x33, 0x34, 0x35, 0x36, 0x37, 0x38, 0x39]);
    NextState(0xB0ACBB32, 0x33, 0x77B79C2D, [0x34, 0x35, 0x36, 0x37, 0x38, 0x39]);
    NextState(0x77B79C2D, 0x34, 0x641C1F5C, [0x35, 0x36, 0x37, 0x38, 0x39]);
    NextState(0x641C1F5C, 0x35, 0x340AC5E3, [0x36, 0x37, 0x38, 0x39]);
    LastFourStates();
  }

  // ----- The register is linear and every step can be undone -----

  lemma XorFacts(x: bv32, y: bv32)
    ensures (x ^ y) & 1 == (x & 1) ^ (y & 1)
    ensures (x ^ y) >> 1 == (x >> 1) ^ (y >> 1)
  {
  }

  lemma BitCases(x: bv32)
    ensures x & 1 == 0 || x & 1 == 1
  {
  }

  lemma XorSwap(a: bv32, b: bv32, c: bv32, d: bv32)
    ensures (a ^ b) ^ (c ^ d) == (a ^ c) ^ (b ^ d)
  {
  }

  lemma XorAssoc(a: bv32, b: bv32, c: bv32)
    ensures Xor(Xor(a, b), c) == Xor(a, Xor(b, c))
  {
  }

  lemma XorCommutes(a: bv32, b: bv32)
    ensures Xor(a, b) == Xor(b, a)
  {
  }

  lemma XorRegroup(a: bv32, b: bv32, c: bv32, d: bv32)
    ensures Xor(Xor(a, b), Xor(c, d)) == Xor(Xor(a, c), Xor(b, d))
  {
    XorAssoc(a, b, Xor(c, d));
    XorAssoc(b, c, d);
    XorCommutes(b, c);
    XorAssoc(c, b, d);
    XorAssoc(a, c, Xor(b, d));
  }

  lemma StepLinearRaw(x: bv32, y: bv32)
    ensures Step(x ^ y) == Step(x) ^ Step(y)
  {
    BitCases(x);
    BitCases(y);
    XorFacts(x, y);
    XorSwap(x >> 1, y >> 1, if x & 1 == 1 then POLY else 0, if y & 1 == 1 then POLY else 0);
    assert POLY ^ POLY == 0;
  }

  lemma StepLinear(x: bv32, y: bv32)
    ensures Step(Xor(x, y)) == Xor(Step(x), Step(y))
  {
    StepLinearRaw(x, y);
  }

  function Unstep(y: bv32): bv32 {
    if y & 0x8000_0000 != 0 then ((y ^ POLY) << 1) | 1 else y << 1
  }

  lemma UnstepOfStep(x: bv32)
    ensures Unstep(Step(x)) == x
  {
  }

  lemma CancelTopBit(y: bv32)
    requires y & 0x8000_0000 != 0
    ensures (((y ^ POLY) << 1) | 1) >> 1 == y ^ POLY
    ensures (((y ^ POLY) << 1) | 1) & 1 == 1
    ensures (y ^ POLY) ^ POLY == y
  {
  }

  lemma KeepTopBitClear(y: bv32)
    requires y & 0x8000_0000 == 0
    ensures (y << 1) >> 1 == y && (y << 1) & 1 == 0
    ensures y ^ 0 == y
  {
  }

  /** With UnstepOfStep: the step is a bijection on 32-bit words. */
  lemma StepOfUnstep(y: bv32)
    ensures Step(Unstep(y)) == y
  {
    if y & 0x8000_0000 != 0 {
      CancelTopBit(y);
    } else {
      KeepTopBitClear(y);
    }
  }

  lemma {:induction false} StepsInjective(x: bv32, y: bv32, n: nat)
    requires Steps(x, n) == Steps(y, n)
    ensures x == y
    decreases n
  {
    if n > 0 {
      StepsInjective(Step(x), Step(y), n - 1);
      UnstepOfStep(x);
      UnstepOfStep(y);
    }
  }

  // ----- The register fed bit by bit, least significant bit of a byte first -----

  function Bit(b: bool): bv32 {
    if b then 1 else 0
  }

  function BitStep(s: bv32, b: bool): bv32 {
    Step(Xor(s, Bit(b)))
  }

  function BitState(s: bv32, bits: seq<bool>): bv32
    decreases |bits|
  {
    if bits == [] then s else BitState(BitStep(s, bits[0]), bits[1..])
  }

  /** The n low bits of a word. */
  function LowBits(r: bv32, n: nat): (bits: seq<bool>)
    ensures |bits| == n
    decreases n, r
  {
    if n == 0 then [] else [r & 1 == 1] + LowBits(r >> 1, n - 1)
  }

  function ShiftedOut(r: bv32, n: nat): bv32
    decreases n
  {
    if n == 0 then r else ShiftedOut(r >> 1, n - 1)
  }

  function DataBits(data: seq<byte>): (bits: seq<bool>)
    ensures |bits| == 8 * |data|
    decreases |data|
  {
    if data == [] then [] else ByteBits(data[0]) + DataBits(data[1..])
  }

  function ByteBits(b: byte): (bits: seq<bool>)
    ensures |bits| == 8
  {
    LowBits(b as bv32, 8)
  }

  lemma SplitLowBit(s: bv32, r: bv32)
    ensures Xor(s, r) == Xor(Xor(s, Bit(r & 1 == 1)), r & 0xFFFF_FFFE)
  {
  }

  lemma EvenPart(r: bv32)
    ensures (r & 0xFFFF_FFFE) & 1 == 0
    ensures (r & 0xFFFF_FFFE) >> 1 == r >> 1
  {
  }

  lemma StepOfEven(r: bv32)
    requires r & 1 == 0
    ensures Step(r) == r >> 1
  {
    var half := r >> 1;
    assert Step(r) == half ^ 0;
    ZeroRight(half);
  }

  lemma ZeroRight(x: bv32)
    ensures x ^ 0 == x
  {
  }

  lemma PeelBit(s: bv32, r: bv32)
    ensures Step(Xor(s, r)) == Xor(BitStep(s, r & 1 == 1), r >> 1)
  {
    SplitLowBit(s, r);
    StepLinear(Xor(s, Bit(r & 1 == 1)), r & 0xFFFF_FFFE);
    EvenPart(r);
    StepOfEven(r & 0xFFFF_FFFE);
  }

  /** Shifting n times a register loaded with r is feeding it the n low bits of r. */
  lemma {:induction false} StepsFeedBits(s: bv32, r: bv32, n: nat)
    ensures Steps(Xor(s, r), n) == Xor(BitState(s, LowBits(r, n)), ShiftedOut(r, n))
    decreases n
  {
    if n > 0 {
      var bits := LowBits(r, n);
      PeelBit(s, r);
      StepsFeedBits(BitStep(s, bits[0]), r >> 1, n - 1);
      assert bits[1..] == LowBits(r >> 1, n - 1);
      assert Steps(Xor(s, r), n) == Steps(Step(Xor(s, r)), n - 1);
      assert BitState(s, bits) == BitState(BitStep(s, bits[0]), bits[1..]);
      assert ShiftedOut(r, n) == ShiftedOut(r >> 1, n - 1);
    }
  }

  lemma ByteShiftedOut(b: byte)
    ensures ShiftedOut(b as bv32, 8) == 0
  {
    var r := b as bv32;
    assert ShiftedOut(r, 8) == ShiftedOut(r >> 1 >> 1 >> 1 >> 1, 4) == r >> 1 >> 1 >> 1 >> 1 >> 1 >> 1 >> 1 >> 1;
  }

  lemma {:induction false} BitStateConcat(s: bv32, a: seq<bool>, b: seq<bool>)
    ensures BitState(s, a + b) == BitState(BitState(s, a), b)
    decreases |a|
  {
    if a == [] {
      assert a + b == b;
    } else {
      assert (a + b)[1..] == a[1..] + b;
      BitStateConcat(BitStep(s, a[0]), a[1..], b);
    }
  }

  /** Feeding bytes is feeding their bits. */
  lemma {:induction false} ByteStateIsBitState(s: bv32, data: seq<byte>)
    ensures ByteState(s, data) == BitState(s, DataBits(data))
    decreases |data|
  {
    if data != [] {
      var bits := ByteBits(data[0]);
      StepsFeedBits(s, data[0] as bv32, 8);
      ByteShiftedOut(data[0]);
      assert BitState(s, bits) ^ 0 == BitState(s, bits);
      BitStateConcat(s, bits, DataBits(data[1..]));
      ByteStateIsBitState(ByteStep(s, data[0]), data[1..]);
    }
  }

  // ----- Bursts -----

  function XorBits(a: seq<bool>, b: seq<bool>): (d: seq<bool>)
    requires |a| == |b|
    ensures |d| == |a|
    decreases |a|
  {
    if a == [] then [] else [a[0] != b[0]] + XorBits(a[1..], b[1..])
  }

  lemma XorBit(a: bool, b: bool)
    ensures Xor(Bit(a), Bit(b)) == Bit(a != b)
  {
  }

  lemma BitStepLinear(s: bv32, t: bv32, a: bool, b: bool)
    ensures Xor(BitStep(s, a), BitStep(t, b)) == BitStep(Xor(s, t), a != b)
  {
    XorRegroup(s, Bit(a), t, Bit(b));
    XorBit(a, b);
    StepLinear(Xor(s, Bit(a)), Xor(t, Bit(b)));
  }

  /** The difference of two runs is the run of the difference. */
  lemma {:induction false} BitStateLinear(s: bv32, t: bv32, a: seq<bool>, b: seq<bool>)
    requires |a| == |b|
    ensures Xor(BitState(s, a), BitState(t, b)) == BitState(Xor(s, t), XorBits(a, b))
    decreases |a|
  {
    if a != [] {
      var d := XorBits(a, b);
      BitStepLinear(s, t, a[0], b[0]);
      BitStateLinear(BitStep(s, a[0]), BitStep(t, b[0]), a[1..], b[1..]);
      assert d[0] == (a[0] != b[0]) && d[1..] == XorBits(a[1..], b[1..]);
    }
  }

  /** The word whose low bits are the given ones. */
  function Word(bits: seq<bool>): bv32
    decreases |bits|
  {
    if bits == [] then 0 else Push(Word(bits[1..]), bits[0])
  }

  function Push(w: bv32, b: bool): bv32 {
    Bit(b) | (w << 1)
  }

  lemma {:induction false} ShiftedOutMore(r: bv32, n: nat, m: nat)
    ensures ShiftedOut(r, n + m) == ShiftedOut(ShiftedOut(r, n), m)
    decreases n
  {
    if n > 0 { ShiftedOutMore(r >> 1, n - 1, m); }
  }

  lemma {:induction false} ShiftedOutZero(n: nat)
    ensures ShiftedOut(0, n) == 0
    decreases n
  {
    if n > 0 { ShiftedOutZero(n - 1); }
  }

  lemma ShiftedOut8(r: bv32)
    ensures ShiftedOut(r, 8) == r >> 8
  {
    assert ShiftedOut(r, 8) == ShiftedOut(r >> 1 >> 1 >> 1 >> 1, 4) == r >> 1 >> 1 >> 1 >> 1 >> 1 >> 1 >> 1 >> 1;
  }

  lemma ShiftedOut7(r: bv32)
    ensures ShiftedOut(r, 7) == r >> 7
  {
    assert ShiftedOut(r, 7) == ShiftedOut(r >> 1 >> 1 >> 1 >> 1, 3) == r >> 1 >> 1 >> 1 >> 1 >> 1 >> 1 >> 1;
  }

  lemma ShiftsCompose(w: bv32)
    ensures w >> 8 >> 8 == w >> 16 && w >> 16 >> 8 == w >> 24
    ensures w >> 24 >> 7 == 0 ==> w & 0x8000_0000 == 0
  {
  }

  /** A word emptied by at most 31 shifts can be shifted left by one without loss. */
  lemma RoomForOneMore(w: bv32, n: nat)
    requires n <= 31 && ShiftedOut(w, n) == 0
    ensures w & 0x8000_0000 == 0
  {
    ShiftedOutMore(w, n, 31 - n);
    ShiftedOutZero(31 - n);
    ShiftedOutMore(w, 8, 23);
    ShiftedOutMore(w >> 8, 8, 15);
    ShiftedOutMore(w >> 16, 8, 7);
    ShiftedOut8(w);
    ShiftedOut8(w >> 8);
    ShiftedOut8(w >> 16);
    ShiftedOut7(w >> 24);
    ShiftsCompose(w);
  }

  lemma ShiftOnBit(w: bv32, b: bool)
    requires w & 0x8000_0000 == 0
    ensures (Push(w, b) & 1 == 1) == b
    ensures Push(w, b) >> 1 == w
  {
  }

  lemma BitsOfPush(w: bv32, b: bool, n: nat)
    requires w & 0x8000_0000 == 0
    ensures LowBits(Push(w, b), n + 1) == [b] + LowBits(w, n)
    ensures ShiftedOut(Push(w, b), n + 1) == ShiftedOut(w, n)
  {
    ShiftOnBit(w, b);
    var r := Push(w, b);
    assert LowBits(r, n + 1) == [r & 1 == 1] + LowBits(r >> 1, n);
  }

  lemma {:induction false} WordHoldsBits(bits: seq<bool>)
    requires |bits| <= 32
    ensures LowBits(Word(bits), |bits|) == bits
    ensures ShiftedOut(Word(bits), |bits|) == 0
    decreases |bits|
  {
    if bits != [] {
      var w := Word(bits[1..]);
      WordHoldsBits(bits[1..]);
      RoomForOneMore(w, |bits| - 1);
      BitsOfPush(w, bits[0], |bits| - 1);
      assert bits == [bits[0]] + bits[1..];
    }
  }

  /** At most 32 bits, fed to the same state, are told apart by the state they leave. */
  lemma WindowInjective(s: bv32, x: seq<bool>, y: seq<bool>)
    requires |x| == |y| <= 32 && BitState(s, x) == BitState(s, y)
    ensures x == y
  {
    var wx, wy, n := Word(x), Word(y), |x|;
    WordHoldsBits(x);
    WordHoldsBits(y);
    StepsFeedBits(s, wx, n);
    StepsFeedBits(s, wy, n);
    StepsInjective(Xor(s, wx), Xor(s, wy), n);
    XorCancel(s, wx, wy);
  }

  lemma XorCancel(s: bv32, x: bv32, y: bv32)
    requires Xor(s, x) == Xor(s, y)
    ensures x == y
  {
  }

  lemma BitStepInjective(s: bv32, t: bv32, b: bool)
    requires BitStep(s, b) == BitStep(t, b)
    ensures s == t
  {
    UnstepOfStep(Xor(s, Bit(b)));
    UnstepOfStep(Xor(t, Bit(b)));
    XorCommutes(s, Bit(b));
    XorCommutes(t, Bit(b));
    XorCancel(Bit(b), s, t);
  }

  lemma {:induction false} BitStateInjective(s: bv32, t: bv32, bits: seq<bool>)
    requires BitState(s, bits) == BitState(t, bits)
    ensures s == t
    decreases |bits|
  {
    if bits != [] {
      BitStateInjective(BitStep(s, bits[0]), BitStep(t, bits[0]), bits[1..]);
      BitStepInjective(s, t, bits[0]);
    }
  }

  /** Two different bit strings that agree outside some 32 consecutive bits leave different states. */
  lemma BitBurstChangesState(s: bv32, a: seq<bool>, b: seq<bool>, p: nat)
    requires |a| == |b| && a != b
    requires forall j :: 0 <= j < |a| && a[j] != b[j] ==> p <= j < p + 32
    ensures BitState(s, a) != BitState(s, b)
  {
    var p, q := if p < |a| then p else |a|, if p + 32 < |a| then p + 32 else |a|;
    assert a[..p] == b[..p] && a[q..] == b[q..];
    assert a == a[..p] + (a[p..q] + a[q..]) && b == b[..p] + (b[p..q] + b[q..]);
    BitStateConcat(s, a[..p], a[p..q] + a[q..]);
    BitStateConcat(s, b[..p], b[p..q] + b[q..]);
    var t := BitState(s, a[..p]);
    BitStateConcat(t, a[p..q], a[q..]);
    BitStateConcat(t, b[p..q], b[q..]);
    if BitState(s, a) == BitState(s, b) {
      BitStateInjective(BitState(t, a[p..q]), BitState(t, b[p..q]), a[q..]);
      WindowInjective(t, a[p..q], b[p..q]);
      assert false;
    }
  }

  lemma SliceAfter(first: seq<bool>, rest: seq<bool>, k: nat)
    requires |first| == 8 && k + 8 <= |rest|
    ensures (first + rest)[k + 8..k + 16] == rest[k..k + 8]
  {
  }

  lemma {:induction false} DataBitsSlice(data: seq<byte>, j: nat)
    requires j < |data|
    ensures DataBits(data)[8 * j..8 * j + 8] == ByteBits(data[j])
    decreases |data|
  {
    var first, rest := ByteBits(data[0]), DataBits(data[1..]);
    if j == 0 {
      assert (first + rest)[..8] == first;
    } else {
      DataBitsSlice(data[1..], j - 1);
      SliceAfter(first, rest, 8 * (j - 1));
    }
  }

  lemma ByteFromBits(x: byte, y: byte)
    requires ByteBits(x) == ByteBits(y)
    ensures x == y
  {
    StepsFeedBits(0, x as bv32, 8);
    StepsFeedBits(0, y as bv32, 8);
    ByteShiftedOut(x);
    ByteShiftedOut(y);
    StepsInjective(Xor(0, x as bv32), Xor(0, y as bv32), 8);
    XorCancel(0, x as bv32, y as bv32);
    Widen(x, y);
  }

  lemma Widen(x: byte, y: byte)
    requires x as bv32 == y as bv32
    ensures x == y
  {
  }

  lemma CrcIsBitState(data: seq<byte>)
    ensures Crc(data) == !BitState(0xFFFF_FFFF, DataBits(data))
  {
    ByteStateIsBitState(0xFFFF_FFFF, data);
  }

  lemma NotInjective(x: bv32, y: bv32)
    requires !x == !y
    ensures x == y
  {
  }

  /** Any change confined to 32 consecutive bits of the message, at any bit offset, changes the CRC. */
  lemma BitBurstChangesCrc(a: seq<byte>, b: seq<byte>, p: nat)
    requires |a| == |b| && DataBits(a) != DataBits(b)
    requires forall j :: 0 <= j < 8 * |a| && DataBits(a)[j] != DataBits(b)[j] ==> p <= j < p + 32
    ensures Crc(a) != Crc(b)
  {
    CrcIsBitState(a);
    CrcIsBitState(b);
    BitBurstChangesState(0xFFFF_FFFF, DataBits(a), DataBits(b), p);
    if Crc(a) == Crc(b) {
      NotInjective(BitState(0xFFFF_FFFF, DataBits(a)), BitState(0xFFFF_FFFF, DataBits(b)));
    }
  }

  lemma DifferentBitDifferentByte(a: seq<byte>, b: seq<byte>, k: nat)
    requires |a| == |b| && k < 8 * |a| && DataBits(a)[k] != DataBits(b)[k]
    ensures a[k / 8] != b[k / 8]
  {
    var x, y, j := DataBits(a), DataBits(b), k / 8;
    DataBitsSlice(a, j);
    DataBitsSlice(b, j);
    assert x[k] == x[8 * j..8 * j + 8][k - 8 * j] && y[k] == y[8 * j..8 * j + 8][k - 8 * j];
  }

  lemma DataBitsInjective(a: seq<byte>, b: seq<byte>)
    requires |a| == |b| && DataBits(a) == DataBits(b)
    ensures a == b
  {
    forall j | 0 <= j < |a|
      ensures a[j] == b[j]
    {
      DataBitsSlice(a, j);
      DataBitsSlice(b, j);
      ByteFromBits(a[j], b[j]);
    }
  }

  /** Any change confined to 4 consecutive bytes changes the CRC. */
  lemma ByteBurstChangesCrc(a: seq<byte>, b: seq<byte>, p: nat)
    requires |a| == |b| && a != b
    requires forall j :: 0 <= j < |a| && a[j] != b[j] ==> p <= j < p + 4
    ensures Crc(a) != Crc(b)
  {
    var x, y := DataBits(a), DataBits(b);
    forall k | 0 <= k < 8 * |a| && x[k] != y[k]
      ensures 8 * p <= k < 8 * p + 32
    {
      DifferentBitDifferentByte(a, b, k);
    }
    if x == y {
      DataBitsInjective(a, b);
    }
    BitBurstChangesCrc(a, b, 8 * p);
  }

  /** The 33 bits of the generator polynomial, highest power first. */
  function GeneratorBits(): (bits: seq<bool>)
    ensures |bits| == 33
  {
    [true] + LowBits(POLY, 32)
  }

  /** 32 is the exact bound: a change by the 33 generator bits is never noticed. */
  lemma GeneratorBurstUnnoticed(s: bv32, before: seq<bool>, window: seq<bool>, after: seq<bool>)
    requires |window| == 33
    ensures BitState(s, before + window + after) == BitState(s, before + XorBits(window, GeneratorBits()) + after)
  {
    var g, changed := GeneratorBits(), XorBits(window, GeneratorBits());
    var t := BitState(s, before);
    GeneratorLeavesZero();
    BitStateLinear(t, 0, window, g);
    XorZero(t);
    XorZero(BitState(t, window));
    BitStateConcat(s, before + window, after);
    BitStateConcat(s, before, window);
    BitStateConcat(s, before + changed, after);
    BitStateConcat(s, before, changed);
  }

  lemma XorZero(a: bv32)
    ensures Xor(a, a) == 0 && Xor(a, 0) == a && Xor(0, a) == a
  {
  }

  lemma GeneratorLeavesZero()
    ensures BitState(0, GeneratorBits()) == 0
  {
    var low := LowBits(POLY, 32);
    assert GeneratorBits()[1..] == low;
    assert BitStep(0, true) == POLY;
    StepsFeedBits(POLY, POLY, 32);
    XorZero(POLY);
    StepsOfZero(32);
    PolyShiftsOut();
    XorZero(BitState(POLY, low));
  }

  lemma PolyShiftsOut()
    ensures ShiftedOut(POLY, 32) == 0
  {
    ShiftedOutMore(POLY, 8, 24);
    ShiftedOutMore(POLY >> 8, 8, 16);
    ShiftedOutMore(POLY >> 16, 8, 8);
    ShiftedOut8(POLY);
    ShiftedOut8(POLY >> 8);
    ShiftedOut8(POLY >> 16);
    ShiftedOut8(POLY >> 24);
  }

  lemma {:induction false} StepsOfZero(n: nat)
    ensures Steps(0, n) == 0
    decreases n
  {
    if n > 0 { StepsOfZero(n - 1); }
  }

  // ----- The two implementations -----

  lemma {:induction false} StepsPeelFirst(x: bv32, n: nat)
    requires n > 0
    ensures Steps(x, n) == Steps(Step(x), n - 1)
  {
  }

  lemma NextByte(s: bv32, data: seq<byte>, i: nat)
    requires i < |data|
    ensures ByteState(s, data[i..]) == ByteState(ByteStep(s, data[i]), data[i + 1..])
  {
    assert data[i..][0] == data[i] && data[i..][1..] == data[i + 1..];
  }

  /** The inner loop both implementations contain. */
  method EightShifts(x: bv32) returns (crc: bv32)
    ensures crc == Steps(x, 8)
  {
    crc := x;
    for j := 0 to 8
      invariant Steps(crc, 8 - j) == Steps(x, 8)
    {
      StepsPeelFirst(crc, 8 - j);
      crc := Step(crc);
    }
  }

  /** The bank library's bit-by-bit loop. */
  method BankCrc32(data: seq<byte>) returns (result: bv32)
    ensures result == Crc(data)
  {
    var crc: bv32 := 0xFFFF_FFFF;
    for i := 0 to |data|
      invariant ByteState(crc, data[i..]) == ByteState(0xFFFF_FFFF, data)
    {
      NextByte(crc, data, i);
      crc := Xor(crc, data[i] as bv32);
      crc := EightShifts(crc);
    }
    result := !crc;
  }

  /** A part with n low zero bits is only shifted by n steps. */
  lemma {:induction false} StepsSkipZeros(a: bv32, r: bv32, n: nat)
    requires LowZeros(r, n)
    ensures Steps(Xor(a, r), n) == Xor(Steps(a, n), ShiftedOut(r, n))
    decreases n
  {
    if n > 0 {
      StepLinear(a, r);
      StepOfEven(r);
      StepsSkipZeros(Step(a), r >> 1, n - 1);
      StepsPeelFirst(a, n);
      StepsPeelFirst(Xor(a, r), n);
    }
  }

  predicate LowZeros(r: bv32, n: nat)
    decreases n
  {
    n == 0 || (r & 1 == 0 && LowZeros(r >> 1, n - 1))
  }

  lemma UpperBytes(x: bv32)
    ensures LowZeros(x & 0xFFFF_FF00, 8)
    ensures (x & 0xFFFF_FF00) >> 8 == x >> 8
    ensures Xor(x & 0xFF, x & 0xFFFF_FF00) == x
  {
    var r := x & 0xFFFF_FF00;
    assert LowZeros(r >> 1 >> 1 >> 1 >> 1, 4);
    assert LowZeros(r >> 1 >> 1, 6);
  }

  /** Eight steps shift the upper bytes down and replace the lowest one by a table entry. */
  lemma EightSteps(x: bv32)
    ensures Steps(x, 8) == Xor(x >> 8, Steps(x & 0xFF, 8))
  {
    var low, high := x & 0xFF, x & 0xFFFF_FF00;
    UpperBytes(x);
    StepsSkipZeros(low, high, 8);
    ShiftedOut8(high);
    XorCommutes(Steps(low, 8), x >> 8);
  }

  /** What the table holds: the register after eight steps from i. */
  function Entry(i: int): bv32
    requires 0 <= i < 256
  {
    Steps(i as bv32, 8)
  }

  function Index(x: bv32): (i: int)
    ensures 0 <= i < 256
  {
    (x & 0xFF) as int
  }

  lemma IndexRoundTrip(v: bv32)
    ensures v as int as bv32 == v
  {
  }

  lemma EntryOfIndex(x: bv32)
    ensures Entry(Index(x)) == Steps(x & 0xFF, 8)
  {
    IndexRoundTrip(x & 0xFF);
  }

  lemma UpperBytesOfXor(s: bv32, b: byte)
    ensures Xor(s, b as bv32) >> 8 == s >> 8
  {
  }

  function TableStep(s: bv32, b: byte): bv32 {
    Xor(s >> 8, Entry(Index(Xor(s, b as bv32))))
  }

  /** One table look-up replaces the eight steps of a byte. */
  lemma ByteStepByTable(s: bv32, b: byte)
    ensures ByteStep(s, b) == TableStep(s, b)
  {
    var x := Xor(s, b as bv32);
    EightSteps(x);
    EntryOfIndex(x);
    UpperBytesOfXor(s, b);
  }

  /** The packet tester's table, filled on first use. */
  class TableCrc {
    const table: array<bv32>
    var initialized: bool

    ghost predicate Valid()
      reads this, table
    {
      table.Length == 256 &&
      (initialized ==> forall i :: 0 <= i < 256 ==> table[i] == Entry(i))
    }

    constructor ()
      ensures Valid() && !initialized && fresh(table)
    {
      table := new bv32[256](_ => 0);
      initialized := false;
    }

    method Init()
      requires Valid()
      modifies this, table
      ensures Valid() && initialized
    {
      if initialized { return; }
      for i := 0 to 256
        invariant !initialized
        invariant forall k :: 0 <= k < i ==> table[k] == Entry(k)
      {
        var crc := EightShifts(i as bv32);
        table[i] := crc;
      }
      initialized := true;
    }

    method LookUp(crc: bv32, b: byte) returns (next: bv32)
      requires Valid() && initialized
      ensures next == TableStep(crc, b)
    {
      next := Xor(crc >> 8, table[Index(Xor(crc, b as bv32))]);
    }

    /** The table-driven loop computes the same checksum as the bit-by-bit one. */
    method Crc32(data: seq<byte>) returns (result: bv32)
      requires Valid()
      modifies this, table
      ensures Valid() && initialized && result == Crc(data)
    {
      Init();
      var crc: bv32 := 0xFFFF_FFFF;
      for i := 0 to |data|
        invariant Valid() && initialized
        invariant ByteState(crc, data[i..]) == ByteState(0xFFFF_FFFF, data)
      {
        NextByte(crc, data, i);
        ByteStepByTable(crc, data[i]);
        crc := LookUp(crc, data[i]);
      }
      result := !crc;
    }
  }
}
