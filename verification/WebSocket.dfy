/** The WebSocket frames of the server and the client, as bytes written to and read from a stream. */
module WebSocket {
  import opened Words

  datatype Side = Server | Client

  /** Which side frames are sent to. */
  function Peer(side: Side): Side {
    if side == Server then Client else Server
  }

  // ----- Sending -----

  function LengthCode(n: nat): (c: nat)
    ensures c <= 127
  {
    if n <= 125 then n else if n <= 65535 then 126 else 127
  }

  /** The extended length: nothing, two bytes or eight. */
  function Extension(n: nat): seq<byte> {
    if n <= 125 then [] else if n <= 65535 then BigEndian(n, 2) else BigEndian(n, 8)
  }

  function SecondByte(maskBit: bool, code: nat): byte {
    if maskBit then 0x80 | ByteOf(code) else ByteOf(code)
  }

  function Head(maskBit: bool, n: nat): seq<byte> {
    [0x81, SecondByte(maskBit, LengthCode(n))] + Extension(n)
  }

  /** The server sets the mask bit but sends neither a key nor masked data; the client sends
      plain frames. */
  function Frame(side: Side, data: seq<byte>): seq<byte> {
    Head(side == Server, |data|) + data
  }

  // ----- Receiving -----

  datatype Reception = Closed | Message(payload: seq<byte>, rest: seq<byte>)

  /** A read whose result is not checked: what the stream does not deliver stays as it was. */
  function Unchecked(s: seq<byte>, n: nat, junk: seq<byte>): (r: seq<byte>)
    requires n <= |junk|
    ensures |r| == n
  {
    if n <= |s| then s[..n] else s + junk[|s|..n]
  }

  function Left(s: seq<byte>, n: nat): seq<byte> {
    if n <= |s| then s[n..] else []
  }

  function Unmasked(payload: seq<byte>, key: seq<byte>): (r: seq<byte>)
    requires |key| == 4
    ensures |r| == |payload|
    ensures forall i :: 0 <= i < |payload| ==> r[i] == payload[i] ^ key[i % 4]
  {
    seq(|payload|, i requires 0 <= i < |payload| => payload[i] ^ key[i % 4])
  }

  function ExtensionSize(code: nat): nat {
    if code == 126 then 2 else if code == 127 then 8 else 0
  }

  /** The payload of n bytes, unmasked when there is a key; opcode 8 closes the connection. */
  function ReceiveBody(opcode: byte, n: nat, key: seq<byte>, s: seq<byte>): Reception
    requires key == [] || |key| == 4
  {
    if |s| < n || opcode == 8 then Closed
    else Message(if key == [] then s[..n] else Unmasked(s[..n], key), s[n..])
  }

  function ReceiveAfterHead(side: Side, opcode: byte, masked: bool, code: nat, s: seq<byte>, junk: seq<byte>): Reception
    requires |junk| == 8
  {
    var size := ExtensionSize(code);
    var n := if size == 0 then code else Value(Unchecked(s, size, junk));
    var rest := Left(s, size);
    if side == Server && masked then ReceiveBody(opcode, n, Unchecked(rest, 4, junk), Left(rest, 4))
    else ReceiveBody(opcode, n, [], rest)
  }

  /** The client ignores the mask bit. */
  function Receive(side: Side, s: seq<byte>, junk: seq<byte>): Reception
    requires |junk| == 8
  {
    if |s| < 2 then Closed
    else ReceiveAfterHead(side, s[0] & 0x0F, s[1] & 0x80 != 0, (s[1] & 0x7F) as nat, s[2..], junk)
  }

  // ----- Round trips -----

  lemma CodeByteRange(b: byte)
    requires b < 128
    ensures b & 0x7F == b && b & 0x80 == 0
    ensures (0x80 | b) & 0x7F == b && (0x80 | b) & 0x80 != 0
  {
  }

  lemma HighBitClear(b: byte)
    requires b as nat < 128
    ensures b < 128
  {
  }

  lemma CodeRecovered(maskBit: bool, code: nat)
    requires code <= 127
    ensures (SecondByte(maskBit, code) & 0x7F) as nat == code
    ensures SecondByte(maskBit, code) & 0x80 != 0 <==> maskBit
  {
    ByteOfValue(code);
    var b := ByteOf(code);
    HighBitClear(b);
    CodeByteRange(b);
  }

  lemma LengthRecovered(n: nat, rest: seq<byte>, junk: seq<byte>)
    requires n < TWO_TO_THE_64 && |junk| == 8
    ensures var code, s := LengthCode(n), Extension(n) + rest;
            var size := ExtensionSize(code);
            size == |Extension(n)| && Left(s, size) == rest &&
            (if size == 0 then code else Value(Unchecked(s, size, junk))) == n
  {
    Pow256s();
    SplitConcat(Extension(n), rest);
    if 125 < n <= 65535 {
      ValueOfBigEndian(n, 2);
    } else if n > 65535 {
      ValueOfBigEndian(n, 8);
    }
  }

  /** The head of a frame tells opcode 1, the mask bit and the length, in all three length forms. */
  lemma HeadRecovered(side: Side, maskBit: bool, n: nat, rest: seq<byte>, junk: seq<byte>)
    requires n < TWO_TO_THE_64 && |junk| == 8
    ensures Receive(side, Head(maskBit, n) + rest, junk) ==
            if side == Server && maskBit then ReceiveBody(1, n, Unchecked(rest, 4, junk), Left(rest, 4))
            else ReceiveBody(1, n, [], rest)
  {
    var code := LengthCode(n);
    var head := [0x81, SecondByte(maskBit, code)];
    var s := Head(maskBit, n) + rest;
    assert s == head + (Extension(n) + rest);
    assert s[2..] == Extension(n) + rest;
    CodeRecovered(maskBit, code);
    LengthRecovered(n, rest, junk);
    assert s[0] & 0x0F == 1;
  }

  /** A frame of one side is received by the other as it was sent, and only its bytes are consumed. */
  lemma FrameRoundTrip(side: Side, data: seq<byte>, rest: seq<byte>, junk: seq<byte>)
    requires |data| < TWO_TO_THE_64 && |junk| == 8
    ensures Receive(Peer(side), Frame(side, data) + rest, junk) == Message(data, rest)
  {
    ConcatAssociates(Head(side == Server, |data|), data, rest);
    HeadRecovered(Peer(side), side == Server, |data|, data + rest, junk);
    SplitConcat(data, rest);
  }

  /** A client frame masked as section 5.3 of RFC 6455 requires. */
  function MaskedFrame(data: seq<byte>, key: seq<byte>): seq<byte>
    requires |key| == 4
  {
    Head(true, |data|) + (key + Unmasked(data, key))
  }

  lemma UnmaskedTwice(data: seq<byte>, key: seq<byte>)
    requires |key| == 4
    ensures Unmasked(Unmasked(data, key), key) == data
  {
    var once := Unmasked(data, key);
    forall i | 0 <= i < |data|
      ensures Unmasked(once, key)[i] == data[i]
    {
      XorTwice(data[i], key[i % 4]);
    }
  }

  /** The server recovers masked payloads. */
  lemma MaskedRoundTrip(data: seq<byte>, key: seq<byte>, rest: seq<byte>, junk: seq<byte>)
    requires |data| < TWO_TO_THE_64 && |key| == 4 && |junk| == 8
    ensures Receive(Server, MaskedFrame(data, key) + rest, junk) == Message(data, rest)
  {
    var sent := Unmasked(data, key);
    ConcatAssociates(Head(true, |data|), key + sent, rest);
    HeadRecovered(Server, true, |data|, key + sent + rest, junk);
    ConcatAssociates(key, sent, rest);
    SplitConcat(key, sent + rest);
    SplitConcat(sent, rest);
    UnmaskedTwice(data, key);
  }

  function Frames(side: Side, payloads: seq<seq<byte>>): seq<byte>
    decreases |payloads|
  {
    if payloads == [] then [] else Frame(side, payloads[0]) + Frames(side, payloads[1..])
  }

  /** k receptions in a row. */
  function ReceiveMany(side: Side, s: seq<byte>, k: nat, junk: seq<byte>): (seq<seq<byte>>, seq<byte>)
    requires |junk| == 8
    decreases k
  {
    if k == 0 then ([], s)
    else
      match Receive(side, s, junk)
      case Closed => ([], s)
      case Message(payload, rest) =>
        var more := ReceiveMany(side, rest, k - 1, junk);
        ([payload] + more.0, more.1)
  }

  /** Any sequence of payloads arrives as that sequence and uses up exactly its own bytes. */
  lemma {:induction false} StreamRoundTrip(side: Side, payloads: seq<seq<byte>>, rest: seq<byte>, junk: seq<byte>)
    requires |junk| == 8 && forall i :: 0 <= i < |payloads| ==> |payloads[i]| < TWO_TO_THE_64
    ensures ReceiveMany(Peer(side), Frames(side, payloads) + rest, |payloads|, junk) == (payloads, rest)
    decreases |payloads|
  {
    if payloads == [] {
      assert Frames(side, payloads) + rest == rest;
    } else {
      var more := Frames(side, payloads[1..]) + rest;
      ConcatAssociates(Frame(side, payloads[0]), Frames(side, payloads[1..]), rest);
      FrameRoundTrip(side, payloads[0], more, junk);
      StreamRoundTrip(side, payloads[1..], rest, junk);
      assert [payloads[0]] + payloads[1..] == payloads;
    }
  }

  /** A server takes the start of another server's payload for a key: it reads back what was sent
      if and only if nothing was sent and nothing follows. */
  lemma ServerReadsServerIff(data: seq<byte>, rest: seq<byte>, junk: seq<byte>)
    requires |data| < TWO_TO_THE_64 && |junk| == 8
    ensures Receive(Server, Frame(Server, data) + rest, junk) == Message(data, rest) <==> data == [] && rest == []
  {
    ConcatAssociates(Head(true, |data|), data, rest);
    HeadRecovered(Server, true, |data|, data + rest, junk);
  }

  /** On its own such a frame, unless empty, closes the connection. */
  lemma ServerFrameCloses(data: seq<byte>, junk: seq<byte>)
    requires 0 < |data| < TWO_TO_THE_64 && |junk| == 8
    ensures Receive(Server, Frame(Server, data), junk) == Closed
  {
    HeadRecovered(Server, true, |data|, data, junk);
  }

  // ----- The bytes of a frame -----

  /** A final text frame: 0x81, then the mask bit of the server and the length in one, three or nine
      bytes, then the data. */
  lemma FrameForms(side: Side, data: seq<byte>)
    requires |data| < TWO_TO_THE_64
    ensures var f, n, bit := Frame(side, data), |data|, if side == Server then 128 else 0;
            |f| >= 2 && f[0] == 0x81 &&
            (n <= 125 ==> f[1] as nat == bit + n && f[2..] == data) &&
            (125 < n <= 65535 ==> f[1] as nat == bit + 126 && |f| == n + 4 && Value(f[2..4]) == n && f[4..] == data) &&
            (65535 < n ==> f[1] as nat == bit + 127 && |f| == n + 10 && Value(f[2..10]) == n && f[10..] == data)
  {
    var f, n := Frame(side, data), |data|;
    var code := LengthCode(n);
    SecondByteValue(side == Server, code);
    assert f[..2] == [0x81, SecondByte(side == Server, code)] && f[2..] == Extension(n) + data;
    SplitConcat(Extension(n), data);
    Pow256s();
    if 125 < n <= 65535 {
      ValueOfBigEndian(n, 2);
      assert f[2..4] == f[2..][..2] && f[4..] == f[2..][2..];
    } else if n > 65535 {
      ValueOfBigEndian(n, 8);
      assert f[2..10] == f[2..][..8] && f[10..] == f[2..][8..];
    }
  }

  lemma SecondByteValue(maskBit: bool, code: nat)
    requires code <= 127
    ensures SecondByte(maskBit, code) as nat == (if maskBit then 128 else 0) + code
  {
    ByteOfValue(code);
    var b := ByteOf(code);
    HighBitClear(b);
    OrIsPlus(b);
  }

  lemma OrIsPlus(b: byte)
    requires b < 128
    ensures (0x80 | b) as nat == 128 + b as nat
  {
    assert 0x80 | b == 128 + b;
  }

  /** Whatever the length, the mask and the payload: opcode 8 closes the connection. */
  lemma CloseOpcodeCloses(side: Side, s: seq<byte>, junk: seq<byte>)
    requires |junk| == 8 && |s| >= 1 && s[0] & 0x0F == 8
    ensures Receive(side, s, junk) == Closed
  {
  }

  /** Of the first byte only that matters: final bit and other opcodes are ignored. */
  lemma OtherOpcodesIgnored(side: Side, first: byte, first': byte, rest: seq<byte>, junk: seq<byte>)
    requires |junk| == 8 && first & 0x0F != 8 && first' & 0x0F != 8
    ensures Receive(side, [first] + rest, junk) == Receive(side, [first'] + rest, junk)
  {
    assert rest != [] ==> ([first] + rest)[2..] == ([first'] + rest)[2..] == rest[1..];
  }

  /** A stream that ends inside the payload closes the connection, one that ends inside the head too if
      fewer than two bytes are there. */
  lemma CutFrameCloses(side: Side, data: seq<byte>, k: nat, junk: seq<byte>)
    requires |data| < TWO_TO_THE_64 && |junk| == 8
    requires k < 2 || |Frame(side, data)| - |data| <= k < |Frame(side, data)|
    ensures k <= |Frame(side, data)| && Receive(Peer(side), Frame(side, data)[..k], junk) == Closed
  {
    var head := Head(side == Server, |data|);
    if k >= 2 {
      var part := data[..k - |head|];
      assert Frame(side, data)[..k] == head + part;
      HeadRecovered(Peer(side), side == Server, |data|, part, junk);
    }
  }

  // ----- The calls -----

  /** n shifted right by k bytes. */
  function Shifted(n: nat, k: nat): nat {
    if k == 0 then n else Shifted(n, k - 1) / 256
  }

  /** Appends the k low bytes of n, the most significant one first. */
  method PushBytes(frame: seq<byte>, n: nat, k: nat) returns (r: seq<byte>)
    ensures r == frame + BigEndian(n, k)
  {
    ghost var pushed: seq<byte> := [];
    r := frame;
    var i := k;
    while i > 0
      invariant 0 <= i <= k
      invariant r == frame + pushed && pushed == BigEndian(Shifted(n, i), k - i)
    {
      i := i - 1;
      r := r + [ByteOf(Shifted(n, i))];
      pushed := pushed + [ByteOf(Shifted(n, i))];
    }
  }

  lemma MaskBits(maskBit: bool, code: nat)
    ensures (if maskBit then 0x80 else 0) | ByteOf(code) == SecondByte(maskBit, code)
  {
    NoMaskBit(ByteOf(code));
  }

  lemma NoMaskBit(b: byte)
    ensures 0 | b == b
  {
  }

  method SendFrame(side: Side, data: seq<byte>) returns (frame: seq<byte>)
    ensures frame == Frame(side, data)
  {
    var mask: byte := if side == Server then 0x80 else 0;
    var len := |data|;
    frame := [0x81];
    MaskBits(side == Server, LengthCode(len));
    if len <= 125 {
      frame := frame + [mask | ByteOf(len)];
    } else if len <= 65535 {
      frame := PushBytes(frame + [mask | ByteOf(126)], len, 2);
    } else {
      frame := PushBytes(frame + [mask | ByteOf(127)], len, 8);
    }
    assert frame == Head(side == Server, len) by {
      assert frame == [0x81, mask | ByteOf(LengthCode(len))] + Extension(len);
    }
    frame := frame + data;
  }

  lemma OneByteMore(bytes: seq<byte>, k: nat)
    requires k < |bytes|
    ensures Value(bytes[..k + 1]) == 256 * Value(bytes[..k]) + bytes[k] as nat
  {
    assert bytes[..k + 1][..k] == bytes[..k];
  }

  /** Reads the payload in pieces of any size the connection delivers, unmasks it in place and
      then looks at the opcode. */
  method ReceivePayload(opcode: byte, n: nat, key: seq<byte>, s: seq<byte>) returns (r: Reception)
    requires key == [] || |key| == 4
    ensures r == ReceiveBody(opcode, n, key, s)
  {
    var payload := new byte[n];
    var received := 0;
    while received < n
      invariant received <= n && received <= |s|
      invariant payload[..received] == s[..received]
    {
      if received == |s| {
        return Closed;
      }
      var more: nat :| 1 <= more && received + more <= n && received + more <= |s|;
      forall i | received <= i < received + more {
        payload[i] := s[i];
      }
      received := received + more;
    }
    if key != [] {
      var i := 0;
      while i < n
        invariant i <= n
        invariant forall j :: 0 <= j < i ==> payload[j] == s[j] ^ key[j % 4]
        invariant forall j :: i <= j < n ==> payload[j] == s[j]
      {
        payload[i] := payload[i] ^ key[i % 4];
        i := i + 1;
      }
      assert payload[..] == Unmasked(s[..n], key);
    }
    if opcode == 8 {
      return Closed;
    }
    return Message(payload[..], s[n..]);
  }

  method ReceiveLength(code: nat, s: seq<byte>, junk: seq<byte>) returns (n: nat, rest: seq<byte>)
    requires |junk| == 8
    ensures n == if ExtensionSize(code) == 0 then code else Value(Unchecked(s, ExtensionSize(code), junk))
    ensures rest == Left(s, ExtensionSize(code))
  {
    n, rest := code, s;
    if code == 126 {
      var ext := Unchecked(rest, 2, junk);
      n := 256 * ext[0] as nat + ext[1] as nat;
      OneByteMore(ext, 0);
      OneByteMore(ext, 1);
      assert ext[..2] == ext;
      rest := Left(rest, 2);
    } else if code == 127 {
      var ext := Unchecked(rest, 8, junk);
      n := 0;
      var i := 0;
      while i < 8
        invariant i <= 8
        invariant n == Value(ext[..i])
      {
        n := 256 * n + ext[i] as nat;
        OneByteMore(ext, i);
        i := i + 1;
      }
      assert ext[..8] == ext;
      rest := Left(rest, 8);
    }
  }

  method ReceiveFrame(side: Side, s: seq<byte>, junk: seq<byte>) returns (r: Reception)
    requires |junk| == 8
    ensures r == Receive(side, s, junk)
  {
    if |s| < 2 {
      return Closed;
    }
    var opcode := s[0] & 0x0F;
    var masked := s[1] & 0x80 != 0;
    var code := (s[1] & 0x7F) as nat;
    var rest := s[2..];
    var n;
    n, rest := ReceiveLength(code, rest, junk);
    var key := [];
    if side == Server && masked {
      key := Unchecked(rest, 4, junk);
      rest := Left(rest, 4);
    }
    r := ReceivePayload(opcode, n, key, rest);
  }
}
