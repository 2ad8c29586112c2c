/** Balanced and plain ternary numbers with their machine-integer limits, and the text codecs. */
module Ternary {
  import opened Options
  import opened Words

  const INT64_MIN: int := -0x8000_0000_0000_0000
  const INT64_MAX: int := 0x7FFF_FFFF_FFFF_FFFF

  predicate InRange(n: int) {
    INT64_MIN <= n <= INT64_MAX
  }

  // ----- Remainder and quotient that truncate towards zero -----

  function TruncatedMod3(n: int): int {
    if n >= 0 then n % 3 else -((-n) % 3)
  }

  function TruncatedDiv3(n: int): int {
    if n >= 0 then n / 3 else -((-n) / 3)
  }

  // ----- Balanced ternary -----

  /** n moved to the multiple of 3 left after taking off its digit. */
  function Adjusted(n: int): int {
    if TruncatedMod3(n) == 2 then n + 1 else if TruncatedMod3(n) == -2 then n - 1 else n
  }

  function Digit(n: int): (d: int)
    ensures -1 <= d <= 1
  {
    var r := TruncatedMod3(n);
    if r == 2 then -1 else if r == -2 then 1 else r
  }

  function Quotient(n: int): int {
    TruncatedDiv3(Adjusted(n))
  }

  lemma DigitQuotient(n: int)
    ensures n == 3 * Quotient(n) + Digit(n)
    ensures n > 0 ==> 0 <= Quotient(n) < n
    ensures n < 0 ==> n < Quotient(n) <= 0
  {
  }

  function Size(n: int): nat {
    if n >= 0 then n else -n
  }

  /** Most significant digit first; nothing for 0. */
  function Digits(n: int): seq<int>
    decreases Size(n)
  {
    if n == 0 then []
    else
      DigitQuotient(n);
      Digits(Quotient(n)) + [Digit(n)]
  }

  function Balanced(n: int): seq<int> {
    if n == 0 then [0] else Digits(n)
  }

  function Val(t: seq<int>): int
    decreases |t|
  {
    if t == [] then 0 else 3 * Val(t[..|t| - 1]) + t[|t| - 1]
  }

  /** The back conversion in 64-bit arithmetic; None when a product or sum leaves the range. */
  function Eval(t: seq<int>): Option<int>
    decreases |t|
  {
    if t == [] then Some(0)
    else
      var v := Eval(t[..|t| - 1]);
      if v == None || !InRange(3 * v.value) || !InRange(3 * v.value + t[|t| - 1]) then None
      else Some(3 * v.value + t[|t| - 1])
  }

  lemma {:induction false} ValOfDigits(n: int)
    ensures Val(Digits(n)) == n
    decreases Size(n)
  {
    if n != 0 {
      DigitQuotient(n);
      ValOfDigits(Quotient(n));
      assert Digits(n)[..|Digits(n)| - 1] == Digits(Quotient(n));
    }
  }

  lemma ValOfBalanced(n: int)
    ensures Val(Balanced(n)) == n
  {
    ValOfDigits(n);
    assert [0][..0] == [];
  }

  /** The largest int64 leaves remainder 1, the smallest -2: only there does the adjustment leave
      the range. */
  lemma AdjustmentFitsIff(n: int)
    requires InRange(n)
    ensures InRange(Adjusted(n)) <==> n != INT64_MIN
  {
  }

  lemma StepFitsIff(n: int)
    requires InRange(n)
    ensures InRange(3 * Quotient(n)) <==> n != INT64_MIN
    ensures InRange(Quotient(n)) && Quotient(n) != INT64_MIN
  {
  }

  lemma {:induction false} EvalOfDigits(n: int)
    requires InRange(n)
    ensures Eval(Digits(n)) == if n == INT64_MIN then None else Some(n)
    decreases Size(n)
  {
    if n != 0 {
      DigitQuotient(n);
      EvalOfDigits(Quotient(n));
      assert Digits(n)[..|Digits(n)| - 1] == Digits(Quotient(n));
      StepFitsIff(n);
    }
  }

  /** The round trip works, with no step of either direction overflowing, exactly for all int64
      values but the smallest. */
  lemma RoundTripIff(n: int)
    requires InRange(n)
    ensures Eval(Balanced(n)) == Some(n) <==> n != INT64_MIN
  {
    EvalOfDigits(n);
    assert [0][..0] == [];
  }

  predicate WellFormed(t: seq<int>) {
    t != [] && (forall i :: 0 <= i < |t| ==> -1 <= t[i] <= 1) && (|t| > 1 ==> t[0] != 0)
  }

  lemma {:induction false} DigitsWellFormed(n: int)
    requires n != 0
    ensures WellFormed(Digits(n)) && Digits(n)[0] != 0
    decreases Size(n)
  {
    DigitQuotient(n);
    if Quotient(n) != 0 { DigitsWellFormed(Quotient(n)); }
  }

  lemma {:induction false} LeadingDigitNonZero(t: seq<int>)
    requires t != [] && t[0] != 0 && forall i :: 0 <= i < |t| ==> -1 <= t[i] <= 1
    ensures Val(t) != 0
    decreases |t|
  {
    if |t| == 1 {
      assert t[..0] == [];
    } else {
      LeadingDigitNonZero(t[..|t| - 1]);
    }
  }

  lemma DigitUnique(q: int, d: int)
    requires -1 <= d <= 1
    ensures Digit(3 * q + d) == d && Quotient(3 * q + d) == q
  {
  }

  /** Digits over -1, 0, 1 without a leading zero are unique. */
  lemma {:induction false} BalancedUnique(t: seq<int>)
    requires WellFormed(t)
    ensures Balanced(Val(t)) == t
    decreases |t|
  {
    var init, d := t[..|t| - 1], t[|t| - 1];
    DigitUnique(Val(init), d);
    assert t == init + [d];
    if |t| > 1 {
      LeadingDigitNonZero(t);
      LeadingDigitNonZero(init);
      BalancedUnique(init);
    } else {
      assert Val(init) == 0;
    }
  }

  lemma BalancedWellFormed(n: int)
    ensures WellFormed(Balanced(n))
  {
    if n != 0 { DigitsWellFormed(n); }
  }

  /** Reports None where an intermediate value would leave the range. */
  method ToBalancedTernary(n: int) returns (r: Option<seq<int>>)
    requires InRange(n)
    ensures r == if n == INT64_MIN then None else Some(Balanced(n))
  {
    var res, m := [], n;
    while m != 0
      invariant InRange(m) && (m == INT64_MIN ==> m == n && res == [])
      invariant n == INT64_MIN ==> m == n
      invariant Digits(n) == Digits(m) + res
      decreases Size(m)
    {
      DigitQuotient(m);
      AdjustmentFitsIff(m);
      ConcatAssociates(Digits(Quotient(m)), [Digit(m)], res);
      var d := TruncatedMod3(m);
      var adjusted := m;
      if d == 2 {
        d, adjusted := -1, m + 1;
      } else if d == -2 {
        d, adjusted := 1, m - 1;
      }
      if !InRange(adjusted) { return None; }
      res := [d] + res;
      m := TruncatedDiv3(adjusted);
    }
    assert [] + res == res;
    if res == [] { res := [0]; }
    if n != 0 { DigitsWellFormed(n); }
    r := Some(res);
  }

  method FromBalancedTernary(t: seq<int>) returns (r: Option<int>)
    ensures r == Eval(t)
  {
    var v := 0;
    for i := 0 to |t|
      invariant Eval(t[..i]) == Some(v)
    {
      assert t[..i + 1][..i] == t[..i];
      if !InRange(v * 3) || !InRange(v * 3 + t[i]) {
        EvalStuck(t, i + 1);
        return None;
      }
      v := v * 3 + t[i];
    }
    assert t[..|t|] == t;
    r := Some(v);
  }

  lemma {:induction false} EvalStuck(t: seq<int>, i: nat)
    requires i <= |t| && Eval(t[..i]) == None
    ensures Eval(t) == None
    decreases |t|
  {
    if i < |t| {
      assert t[..|t| - 1][..i] == t[..i];
      EvalStuck(t[..|t| - 1], i);
    } else {
      assert t[..|t|] == t;
    }
  }

  // ----- Plain ternary, unsigned -----

  function PlainDigits(n: nat): seq<int>
    decreases n
  {
    if n == 0 then [] else PlainDigits(n / 3) + [n % 3]
  }

  function Plain(n: nat): seq<int> {
    if n == 0 then [0] else PlainDigits(n)
  }

  lemma {:induction false} ValOfPlain(n: nat)
    ensures Val(PlainDigits(n)) == n
    ensures forall i :: 0 <= i < |PlainDigits(n)| ==> 0 <= PlainDigits(n)[i] <= 2
    decreases n
  {
    if n > 0 {
      ValOfPlain(n / 3);
      assert PlainDigits(n)[..|PlainDigits(n)| - 1] == PlainDigits(n / 3);
    }
  }

  method ToTernary(n: nat) returns (t: seq<int>)
    ensures t == Plain(n)
  {
    if n == 0 { return [0]; }
    var m: nat := n;
    t := [];
    while m > 0
      invariant PlainDigits(n) == PlainDigits(m) + t
      decreases m
    {
      ConcatAssociates(PlainDigits(m / 3), [m % 3], t);
      t := [m % 3] + t;
      m := m / 3;
    }
    assert [] + t == t;
  }

  /** In 64-bit unsigned arithmetic. */
  method FromTernary(t: seq<int>) returns (v: nat)
    ensures v == Val(t) % TWO_TO_THE_64
  {
    v := 0;
    for i := 0 to |t|
      invariant v == Val(t[..i]) % TWO_TO_THE_64
    {
      assert t[..i + 1][..i] == t[..i];
      v := (v * 3 + t[i]) % TWO_TO_THE_64;
    }
    assert t[..|t|] == t;
  }

  // ----- The text codecs -----

  datatype Codec = PlainCodec | BalancedCodec

  function DigitsOf(codec: Codec, c: nat): seq<int> {
    if codec == PlainCodec then Plain(c) else Balanced(c)
  }

  function DigitChar(d: int): char {
    if d == -1 then 'T' else if d == 0 then '0' else if d == 1 then '1' else '2'
  }

  /** None for a character the decoder skips. */
  function CharDigit(codec: Codec, ch: char): Option<int> {
    if ch == 'T' && codec == BalancedCodec then Some(-1)
    else if ch == '0' then Some(0)
    else if ch == '1' then Some(1)
    else if ch == '2' then Some(2)
    else None
  }

  function Chars(digits: seq<int>): string
    decreases |digits|
  {
    if digits == [] then "" else [DigitChar(digits[0])] + Chars(digits[1..])
  }

  function EncodeByte(codec: Codec, c: nat): string {
    Chars(DigitsOf(codec, c)) + "|"
  }

  function Encode(codec: Codec, data: seq<nat>): string
    decreases |data|
  {
    if data == [] then "" else EncodeByte(codec, data[0]) + Encode(codec, data[1..])
  }

  /** The byte a digit run stands for: the value in 64-bit arithmetic, unsigned or signed, narrowed.
      None when the signed one leaves its range. */
  function Number(codec: Codec, digits: seq<int>): Option<nat> {
    if codec == PlainCodec then Some(Val(digits) % TWO_TO_THE_64 % 256)
    else
      var v := Eval(digits);
      if v == None then None else Some(v.value % 256)
  }

  function Joined(first: seq<nat>, rest: Option<seq<nat>>): Option<seq<nat>> {
    if rest == None then None else Some(first + rest.value)
  }

  /** cur holds the digits read since the last bar. */
  function Decode(codec: Codec, enc: string, cur: seq<int>): Option<seq<nat>>
    decreases |enc|
  {
    if enc == "" then Some([])
    else if enc[0] == '|' then
      var n := Number(codec, cur);
      if n == None then None else Joined([n.value], Decode(codec, enc[1..], []))
    else
      var d := CharDigit(codec, enc[0]);
      Decode(codec, enc[1..], if d == None then cur else cur + [d.value])
  }

  predicate Writable(codec: Codec, digits: seq<int>) {
    forall i :: 0 <= i < |digits| ==> (if codec == PlainCodec then 0 else -1) <= digits[i] <= 2
  }

  lemma DigitCharRead(codec: Codec, d: int)
    requires (if codec == PlainCodec then 0 else -1) <= d <= 2
    ensures DigitChar(d) != '|' && CharDigit(codec, DigitChar(d)) == Some(d)
  {
  }

  lemma DecodeDigit(codec: Codec, d: int, rest: string, cur: seq<int>)
    requires (if codec == PlainCodec then 0 else -1) <= d <= 2
    ensures Decode(codec, [DigitChar(d)] + rest, cur) == Decode(codec, rest, cur + [d])
  {
    DigitCharRead(codec, d);
    assert ([DigitChar(d)] + rest)[1..] == rest;
  }

  lemma DecodeBar(codec: Codec, rest: string, cur: seq<int>)
    requires Number(codec, cur).Some?
    ensures Decode(codec, "|" + rest, cur) == Joined([Number(codec, cur).value], Decode(codec, rest, []))
  {
    assert ("|" + rest)[1..] == rest;
  }

  lemma {:induction false} DecodeDigits(codec: Codec, digits: seq<int>, rest: string, cur: seq<int>)
    requires Writable(codec, digits)
    ensures Decode(codec, Chars(digits) + rest, cur) == Decode(codec, rest, cur + digits)
    decreases |digits|
  {
    if digits == [] {
      assert Chars(digits) + rest == rest && cur + digits == cur;
    } else {
      var d := digits[0];
      ConcatAssociates([DigitChar(d)], Chars(digits[1..]), rest);
      DecodeDigit(codec, d, Chars(digits[1..]) + rest, cur);
      DecodeDigits(codec, digits[1..], rest, cur + [d]);
      assert cur + [d] + digits[1..] == cur + digits;
    }
  }

  lemma ByteIsItself(c: nat)
    requires c < 256
    ensures c % TWO_TO_THE_64 % 256 == c && c % 256 == c
  {
  }

  lemma ByteDigits(codec: Codec, c: nat)
    requires c < 256
    ensures Writable(codec, DigitsOf(codec, c)) && Number(codec, DigitsOf(codec, c)) == Some(c)
  {
    if codec == PlainCodec {
      ValOfPlain(c);
      assert [0][..0] == [];
      ByteIsItself(c);
    } else {
      RoundTripIff(c);
      BalancedWellFormed(c);
    }
  }

  /** What an encoded prefix decodes to does not depend on what follows it. */
  lemma {:induction false} DecodeOfEncode(codec: Codec, data: seq<nat>, rest: string)
    requires forall i :: 0 <= i < |data| ==> data[i] < 256
    ensures Decode(codec, Encode(codec, data) + rest, []) == Joined(data, Decode(codec, rest, []))
    decreases |data|
  {
    if data == [] {
      assert Encode(codec, data) + rest == rest;
      NothingJoined(Decode(codec, rest, []));
    } else {
      var tail := Encode(codec, data[1..]) + rest;
      ConcatAssociates(EncodeByte(codec, data[0]), Encode(codec, data[1..]), rest);
      DecodeByte(codec, data[0], tail);
      DecodeOfEncode(codec, data[1..], rest);
      JoinedTwice([data[0]], data[1..], Decode(codec, rest, []));
      assert data == [data[0]] + data[1..];
    }
  }

  lemma DecodeByte(codec: Codec, c: nat, tail: string)
    requires c < 256
    ensures Decode(codec, EncodeByte(codec, c) + tail, []) == Joined([c], Decode(codec, tail, []))
  {
    var digits := DigitsOf(codec, c);
    ByteDigits(codec, c);
    DecodeClosed(codec, digits, tail);
    assert EncodeByte(codec, c) == Chars(digits) + "|";
  }

  lemma JoinedTwice(a: seq<nat>, b: seq<nat>, rest: Option<seq<nat>>)
    ensures Joined(a, Joined(b, rest)) == Joined(a + b, rest)
  {
    if rest != None {
      ConcatAssociates(a, b, rest.value);
    }
  }

  lemma DecodeClosed(codec: Codec, digits: seq<int>, tail: string)
    requires Writable(codec, digits) && Number(codec, digits).Some?
    ensures Decode(codec, (Chars(digits) + "|") + tail, []) ==
            Joined([Number(codec, digits).value], Decode(codec, tail, []))
  {
    ConcatAssociates(Chars(digits), "|", tail);
    DecodeDigits(codec, digits, "|" + tail, []);
    DecodeBar(codec, tail, digits);
    assert [] + digits == digits;
  }

  predicate Foreign(codec: Codec, ch: char) {
    ch != '0' && ch != '1' && ch != '2' && ch != '|' && (codec == BalancedCodec ==> ch != 'T')
  }

  /** Foreign characters are skipped wherever they stand. */
  lemma {:induction false} ForeignSkipped(codec: Codec, a: string, ch: char, b: string, cur: seq<int>)
    requires Foreign(codec, ch)
    ensures Decode(codec, a + [ch] + b, cur) == Decode(codec, a + b, cur)
    decreases |a|
  {
    if a == "" {
      assert a + [ch] + b == [ch] + b && a + b == b;
      assert ([ch] + b)[1..] == b;
    } else {
      assert (a + [ch] + b)[1..] == a[1..] + [ch] + b && (a + b)[1..] == a[1..] + b;
      var d := CharDigit(codec, a[0]);
      ForeignSkipped(codec, a[1..], ch, b, if a[0] == '|' then [] else if d == None then cur else cur + [d.value]);
    }
  }

  /** The alphabets: plain digits stand for themselves, -1 is written T, and a bar closes each byte. */
  lemma Alphabets()
    ensures Encode(PlainCodec, [5]) == "12|" && Encode(BalancedCodec, [2]) == "1T|"
    ensures Encode(PlainCodec, [0]) == "0|" == Encode(BalancedCodec, [0])
  {
    assert PlainDigits(5) == PlainDigits(1) + [2] && PlainDigits(1) == PlainDigits(0) + [1];
    assert Plain(5) == [1, 2];
    assert Digits(2) == Digits(1) + [-1] && Digits(1) == Digits(0) + [1];
    assert Balanced(2) == [1, -1];
    OneByte(PlainCodec, 5);
    OneByte(BalancedCodec, 2);
    OneByte(PlainCodec, 0);
    OneByte(BalancedCodec, 0);
    TwoChars(1, 2);
    TwoChars(1, -1);
    assert [0][1..] == [] && Chars([0]) == "0" + Chars([]);
    assert EncodeByte(PlainCodec, 5) == "12" + "|" && EncodeByte(BalancedCodec, 2) == "1T" + "|";
    assert EncodeByte(PlainCodec, 0) == "0" + "|" == EncodeByte(BalancedCodec, 0);
  }

  lemma OneByte(codec: Codec, c: nat)
    ensures Encode(codec, [c]) == EncodeByte(codec, c)
  {
    assert [c][1..] == [];
  }

  lemma TwoChars(d: int, e: int)
    ensures Chars([d, e]) == [DigitChar(d), DigitChar(e)]
  {
    assert [d, e][1..] == [e] && [e][1..] == [];
    assert Chars([d, e]) == [DigitChar(d)] + Chars([e]) && Chars([e]) == [DigitChar(e)] + Chars([]);
  }

  /** Both codecs give every byte string back, and no conversion overflows on the way. */
  lemma TextRoundTrip(codec: Codec, data: seq<nat>)
    requires forall i :: 0 <= i < |data| ==> data[i] < 256
    ensures Decode(codec, Encode(codec, data), []) == Some(data)
  {
    DecodeOfEncode(codec, data, "");
    assert Encode(codec, data) + "" == Encode(codec, data);
    assert data + [] == data;
  }

  lemma {:induction false} EncodeConcat(codec: Codec, a: seq<nat>, b: seq<nat>)
    ensures Encode(codec, a + b) == Encode(codec, a) + Encode(codec, b)
    decreases |a|
  {
    if a == [] {
      assert a + b == b;
    } else {
      assert (a + b)[1..] == a[1..] + b;
      EncodeConcat(codec, a[1..], b);
      ConcatAssociates(EncodeByte(codec, a[0]), Encode(codec, a[1..]), Encode(codec, b));
    }
  }

  lemma EncodeNext(codec: Codec, data: seq<nat>, i: nat)
    requires i < |data|
    ensures Encode(codec, data[..i + 1]) == Encode(codec, data[..i]) + EncodeByte(codec, data[i])
  {
    EncodeConcat(codec, data[..i], [data[i]]);
    assert data[..i + 1] == data[..i] + [data[i]];
    assert [data[i]][1..] == [];
    assert EncodeByte(codec, data[i]) + "" == EncodeByte(codec, data[i]);
  }

  /** The digits of one byte, written one character at a time and closed by a bar. */
  method EncodeOne(codec: Codec, c: nat) returns (out: string)
    requires c < 256
    ensures out == EncodeByte(codec, c)
  {
    var t;
    if codec == PlainCodec {
      t := ToTernary(c);
    } else {
      var r := ToBalancedTernary(c);
      t := r.value;
    }
    out := "";
    for j := 0 to |t|
      invariant out == Chars(t[..j])
    {
      CharsAppend(t[..j], t[j]);
      assert t[..j + 1] == t[..j] + [t[j]];
      out := out + [DigitChar(t[j])];
    }
    assert t[..|t|] == t;
    out := out + "|";
  }

  method EncodeText(codec: Codec, data: seq<nat>) returns (out: string)
    requires forall i :: 0 <= i < |data| ==> data[i] < 256
    ensures out == Encode(codec, data)
  {
    out := "";
    for i := 0 to |data|
      invariant out == Encode(codec, data[..i])
    {
      EncodeNext(codec, data, i);
      var one := EncodeOne(codec, data[i]);
      out := out + one;
    }
    assert data[..|data|] == data;
  }

  lemma {:induction false} CharsAppend(digits: seq<int>, d: int)
    ensures Chars(digits + [d]) == Chars(digits) + [DigitChar(d)]
    decreases |digits|
  {
    if digits != [] {
      assert (digits + [d])[1..] == digits[1..] + [d];
      CharsAppend(digits[1..], d);
    } else {
      assert [d][1..] == [];
    }
  }

  method DecodeRun(codec: Codec, digits: seq<int>) returns (n: Option<nat>)
    ensures n == Number(codec, digits)
  {
    if codec == PlainCodec {
      var v := FromTernary(digits);
      n := Some(v % 256);
    } else {
      var v := FromBalancedTernary(digits);
      n := if v == None then None else Some(v.value % 256);
    }
  }

  /** Reports None where a foreign digit run makes the signed conversion leave its range. */
  method DecodeText(codec: Codec, enc: string) returns (r: Option<seq<nat>>)
    ensures r == Decode(codec, enc, [])
  {
    var out, cur := [], [];
    NothingJoined(Decode(codec, enc, []));
    for i := 0 to |enc|
      invariant Joined(out, Decode(codec, enc[i..], cur)) == Decode(codec, enc, [])
    {
      assert enc[i..][1..] == enc[i + 1..];
      if enc[i] == '|' {
        var n := DecodeRun(codec, cur);
        if n == None { return None; }
        JoinedTwice(out, [n.value], Decode(codec, enc[i + 1..], []));
        out := out + [n.value];
        cur := [];
      } else {
        var d := CharDigit(codec, enc[i]);
        if d != None {
          cur := cur + [d.value];
        }
      }
    }
    assert out + [] == out;
    r := Some(out);
  }

  lemma NothingJoined(d: Option<seq<nat>>)
    ensures Joined([], d) == d
  {
    if d != None {
      assert [] + d.value == d.value;
    }
  }
}
