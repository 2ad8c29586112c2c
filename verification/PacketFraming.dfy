/** The packet tester's framing: a 12-byte header with length and checksum, then the payload. */
module PacketFraming {
  import opened Words
  import Crc32

  const HEADER_SIZE := 12

  /** Byte 11 of the header is never written by the sender, so it is whatever was there. */
  datatype Packet = Packet(kind: byte, payload: seq<byte>, timestamp: nat, slack: byte)

  function Header(p: Packet): (h: seq<byte>)
    ensures |h| == HEADER_SIZE
  {
    [p.kind] + BigEndian(|p.payload|, 4) + BigEndian(Crc32.Crc(p.payload) as nat, 4)
    + BigEndian(p.timestamp % TWO_TO_THE_16, 2) + [p.slack]
  }

  function Frame(p: Packet): seq<byte> {
    Header(p) + p.payload
  }

  /** What a receiver makes of the bytes that are readable; consumed bytes have left the socket. */
  datatype Reception =
    | NotYet
    | TooLarge
    | HeaderLost(consumed: nat)
    | Incomplete(consumed: nat)
    | Corrupt(consumed: nat)
    | Received(kind: byte, payload: seq<byte>, consumed: nat)

  /** What the three recv calls return, the first one only peeking: a byte count, or -1. */
  datatype Reads = Reads(peeked: int, header: int, body: int)

  predicate Possible(available: seq<byte>, got: Reads) {
    -1 <= got.peeked <= HEADER_SIZE && got.peeked <= |available| &&
    -1 <= got.header <= HEADER_SIZE && got.header <= |available| &&
    -1 <= got.body && (got.header == HEADER_SIZE ==> got.body <= |available| - HEADER_SIZE)
  }

  function Counted(n: int): nat {
    if n < 0 then 0 else n
  }

  function ReceiveWith(available: seq<byte>, bufferSize: nat, got: Reads): Reception
    requires Possible(available, got)
  {
    if got.peeked < HEADER_SIZE then NotYet
    else
      var length, expected := Value(available[1..5]), Value(available[5..9]);
      if length > bufferSize then TooLarge
      else if got.header != HEADER_SIZE then HeaderLost(Counted(got.header))
      else if got.body != length then Incomplete(HEADER_SIZE + Counted(got.body))
      else
        var payload := available[HEADER_SIZE..HEADER_SIZE + length];
        if Crc32.Crc(payload) as nat != expected then Corrupt(HEADER_SIZE + length)
        else Received(available[0], payload, HEADER_SIZE + length)
  }

  /** Every call returns as much as it asked for, or all there is. */
  function FullReads(available: seq<byte>): (got: Reads)
    ensures Possible(available, got)
  {
    if |available| < HEADER_SIZE then Reads(|available|, |available|, 0)
    else
      var length, left := Value(available[1..5]), |available| - HEADER_SIZE;
      Reads(HEADER_SIZE, HEADER_SIZE, if length <= left then length else left)
  }

  function Receive(available: seq<byte>, bufferSize: nat): Reception {
    ReceiveWith(available, bufferSize, FullReads(available))
  }

  /** Reads that return less never make a different packet out of the bytes: what is delivered is what
      full reads deliver. */
  lemma ShortReadsOnlyLose(available: seq<byte>, bufferSize: nat, got: Reads)
    requires Possible(available, got) && ReceiveWith(available, bufferSize, got).Received?
    ensures ReceiveWith(available, bufferSize, got) == Receive(available, bufferSize)
  {
  }

  lemma StampField(p: Packet)
    ensures Value(Header(p)[9..11]) == p.timestamp % 65536 && Header(p)[11] == p.slack
  {
    assert Header(p)[9..11] == BigEndian(p.timestamp % 65536, 2);
    Pow256s();
    ValueOfBigEndian(p.timestamp % 65536, 2);
  }

  lemma HeaderFields(p: Packet, rest: seq<byte>)
    requires |p.payload| < TWO_TO_THE_32
    ensures var s := Header(p) + rest;
            s[0] == p.kind && Value(s[1..5]) == |p.payload| && Value(s[5..9]) == Crc32.Crc(p.payload) as nat
    ensures |Header(p)| == 12 && Value(Header(p)[9..11]) == p.timestamp % 65536 && Header(p)[11] == p.slack
  {
    var s := Header(p) + rest;
    StampField(p);
    var length, crc := BigEndian(|p.payload|, 4), BigEndian(Crc32.Crc(p.payload) as nat, 4);
    assert s[1..5] == length && s[5..9] == crc;
    Pow256s();
    ValueOfBigEndian(|p.payload|, 4);
    ValueOfBigEndian(Crc32.Crc(p.payload) as nat, 4);
  }

  /** Under an intact header, the checksum alone decides what happens to a body of the right length. */
  lemma ReceiveUnderHeader(p: Packet, body: seq<byte>, rest: seq<byte>, bufferSize: nat)
    requires |body| == |p.payload| <= bufferSize && |p.payload| < TWO_TO_THE_32
    ensures Receive(Header(p) + (body + rest), bufferSize) ==
            if Crc32.Crc(body) as nat == Crc32.Crc(p.payload) as nat
            then Received(p.kind, body, |Frame(p)|) else Corrupt(|Frame(p)|)
  {
    HeaderFields(p, body + rest);
    BodyAfterHeader(Header(p), body, rest);
  }

  lemma BodyAfterHeader(header: seq<byte>, body: seq<byte>, rest: seq<byte>)
    ensures (header + (body + rest))[|header|..|header| + |body|] == body
  {
  }

  /** An untouched packet is received as it was sent, and what follows it stays in the stream. */
  lemma RoundTrip(p: Packet, rest: seq<byte>, bufferSize: nat)
    requires |p.payload| <= bufferSize && |p.payload| < TWO_TO_THE_32
    ensures Receive(Frame(p) + rest, bufferSize) == Received(p.kind, p.payload, |Frame(p)|)
  {
    ReceiveUnderHeader(p, p.payload, rest, bufferSize);
    ConcatAssociates(Header(p), p.payload, rest);
  }

  /** A packet too large for the buffer is refused and stays in the stream. */
  lemma TooLargeRefused(p: Packet, rest: seq<byte>, bufferSize: nat)
    requires bufferSize < |p.payload| < TWO_TO_THE_32
    ensures Receive(Frame(p) + rest, bufferSize) == TooLarge
  {
    HeaderFields(p, p.payload + rest);
    ConcatAssociates(Header(p), p.payload, rest);
  }

  /** Of a packet that has arrived only in part nothing is delivered: before the header is whole it stays in
      the stream, after that what has arrived is lost. */
  lemma PartialPacket(p: Packet, bufferSize: nat, k: nat)
    requires |p.payload| <= bufferSize && |p.payload| < TWO_TO_THE_32 && k < |Frame(p)|
    ensures Receive(Frame(p)[..k], bufferSize) == if k < 12 then NotYet else Incomplete(k)
  {
    if k >= 12 {
      assert Frame(p)[..k] == Header(p) + p.payload[..k - 12];
      HeaderFields(p, p.payload[..k - 12]);
    }
  }

  lemma SameWord(x: bv32, y: bv32)
    requires x as nat == y as nat
    ensures x == y
  {
    Crc32.IndexRoundTrip(x);
    Crc32.IndexRoundTrip(y);
  }

  /** A payload changed only inside 32 consecutive bits is always rejected. */
  lemma BurstRejected(p: Packet, changed: seq<byte>, rest: seq<byte>, bufferSize: nat, offset: nat)
    requires |p.payload| <= bufferSize && |p.payload| < TWO_TO_THE_32
    requires |changed| == |p.payload| && Crc32.DataBits(changed) != Crc32.DataBits(p.payload)
    requires forall j :: 0 <= j < 8 * |changed| && Crc32.DataBits(changed)[j] != Crc32.DataBits(p.payload)[j]
               ==> offset <= j < offset + 32
    ensures Receive(Header(p) + changed + rest, bufferSize) == Corrupt(|Frame(p)|)
  {
    ReceiveUnderHeader(p, changed, rest, bufferSize);
    ConcatAssociates(Header(p), changed, rest);
    Crc32.BitBurstChangesCrc(changed, p.payload, offset);
    if Crc32.Crc(changed) as nat == Crc32.Crc(p.payload) as nat {
      SameWord(Crc32.Crc(changed), Crc32.Crc(p.payload));
    }
  }

  function Frames(packets: seq<Packet>): seq<byte>
    decreases |packets|
  {
    if packets == [] then [] else Frame(packets[0]) + Frames(packets[1..])
  }

  datatype Message = Message(kind: byte, payload: seq<byte>)

  function Messages(packets: seq<Packet>): seq<Message>
    decreases |packets|
  {
    if packets == [] then [] else [Message(packets[0].kind, packets[0].payload)] + Messages(packets[1..])
  }

  /** What repeated calls of the receiver deliver until one delivers nothing. */
  function Drain(available: seq<byte>, bufferSize: nat): seq<Message>
    decreases |available|
  {
    var r := Receive(available, bufferSize);
    if r.Received? then [Message(r.kind, r.payload)] + Drain(available[r.consumed..], bufferSize) else []
  }

  /** A stream of packets is delivered in order, without loss, whatever their sizes. */
  lemma {:induction false} StreamRoundTrip(packets: seq<Packet>, bufferSize: nat)
    requires forall p :: p in packets ==> |p.payload| <= bufferSize && |p.payload| < TWO_TO_THE_32
    ensures Drain(Frames(packets), bufferSize) == Messages(packets)
    decreases |packets|
  {
    if packets != [] {
      var p, rest := packets[0], Frames(packets[1..]);
      assert p in packets;
      RoundTrip(p, rest, bufferSize);
      assert (Frame(p) + rest)[|Frame(p)|..] == rest;
      StreamRoundTrip(packets[1..], bufferSize);
    }
  }

  function Count(n: nat, d: nat): nat {
    (n + d) % TWO_TO_THE_64
  }

  /** The counters of one peer; each wraps at 2^64. */
  class Node {
    const table: Crc32.TableCrc
    var connected: bool
    var packetsSent: nat
    var bytesSent: nat
    var packetsReceived: nat
    var bytesReceived: nat
    var errors: nat

    ghost predicate Valid()
      reads this, table, table.table
    {
      table.Valid()
    }

    constructor ()
      ensures Valid() && !connected && fresh(table) && fresh(table.table)
      ensures packetsSent == bytesSent == packetsReceived == bytesReceived == errors == 0
    {
      table := new Crc32.TableCrc();
      connected := false;
      packetsSent, bytesSent, packetsReceived, bytesReceived, errors := 0, 0, 0, 0, 0;
    }

    /** headerSent and bodySent are what the two send calls return: a byte count, or -1. */
    method Send(kind: int, data: seq<byte>, timestamp: nat, slack: byte, headerSent: int, bodySent: int)
      returns (result: int, wire: seq<byte>)
      requires Valid()
      requires -1 <= headerSent <= HEADER_SIZE && -1 <= bodySent <= |data|
      modifies this, table, table.table
      ensures Valid() && connected == old(connected)
      ensures var frame := Frame(Packet(ByteOf(kind % 256), data, timestamp, slack));
              if !connected then result == -1 && wire == []
              else if headerSent != HEADER_SIZE then
                result == -1 && wire == frame[..if headerSent < 0 then 0 else headerSent]
              else result == bodySent && wire == frame[..HEADER_SIZE + if bodySent < 0 then 0 else bodySent]
      ensures var delivered := connected && headerSent == HEADER_SIZE && bodySent > 0;
              packetsSent == (if delivered then Count(old(packetsSent), 1) else old(packetsSent)) &&
              bytesSent == (if delivered then Count(old(bytesSent), bodySent) else old(bytesSent)) &&
              errors == if connected && !delivered then Count(old(errors), 1) else old(errors)
      ensures packetsReceived == old(packetsReceived) && bytesReceived == old(bytesReceived)
    {
      if !connected { return -1, []; }
      var crc := table.Crc32(data);
      var header := [ByteOf(kind % 256)] + BigEndian(|data|, 4) + BigEndian(crc as nat, 4)
                    + BigEndian(timestamp % TWO_TO_THE_16, 2) + [slack];
      ghost var p := Packet(ByteOf(kind % 256), data, timestamp, slack);
      assert header == Header(p);
      wire := if headerSent < 0 then [] else header[..headerSent];
      if headerSent != HEADER_SIZE {
        errors := Count(errors, 1);
        return -1, wire;
      }
      wire := wire + if bodySent < 0 then [] else data[..bodySent];
      if bodySent > 0 {
        packetsSent, bytesSent := Count(packetsSent, 1), Count(bytesSent, bodySent);
      } else {
        errors := Count(errors, 1);
      }
      result := bodySent;
    }

    /** Reads one packet off the readable bytes; 0 means no packet yet, -1 an error. */
    method ReceivePacket(available: seq<byte>, bufferSize: nat, got: Reads)
      returns (result: int, payload: seq<byte>, rest: seq<byte>)
      requires Valid() && bufferSize < 0x8000_0000 && Possible(available, got)
      modifies this, table, table.table
      ensures Valid() && connected == old(connected)
      ensures var r := if connected then ReceiveWith(available, bufferSize, got) else TooLarge;
              match r
              case NotYet => result == 0 && payload == [] && rest == available
              case TooLarge => result == -1 && payload == [] && rest == available
              case HeaderLost(n) => result == -1 && payload == [] && rest == available[n..]
              case Incomplete(n) => result == -1 && payload == [] && rest == available[n..]
              case Corrupt(n) => result == -1 && payload == [] && rest == available[n..]
              case Received(kind, data, n) => result == kind as int && payload == data && rest == available[n..]
      ensures var r := ReceiveWith(available, bufferSize, got);
              packetsReceived == (if connected && r.Received? then Count(old(packetsReceived), 1)
                                  else old(packetsReceived)) &&
              bytesReceived == (if connected && r.Received? then Count(old(bytesReceived), |payload|)
                                else old(bytesReceived)) &&
              errors == if connected && (r.Incomplete? || r.Corrupt?) then Count(old(errors), 1) else old(errors)
      ensures packetsSent == old(packetsSent) && bytesSent == old(bytesSent)
    {
      payload, rest := [], available;
      if !connected { return -1, payload, rest; }
      if got.peeked < HEADER_SIZE { return 0, payload, rest; }
      var kind, length, expected := available[0], Value(available[1..5]), Value(available[5..9]);
      if length > bufferSize { return -1, payload, rest; }
      rest := available[Counted(got.header)..];
      if got.header != HEADER_SIZE { return -1, payload, rest; }
      var body := rest[..Counted(got.body)];
      rest := rest[Counted(got.body)..];
      if got.body != length {
        errors := Count(errors, 1);
        return -1, payload, rest;
      }
      assert body == available[HEADER_SIZE..HEADER_SIZE + length];
      var actual := table.Crc32(body);
      if actual as nat != expected {
        errors := Count(errors, 1);
        return -1, payload, rest;
      }
      packetsReceived, bytesReceived := Count(packetsReceived, 1), Count(bytesReceived, got.body);
      return kind as int, body, rest;
    }
  }
}
