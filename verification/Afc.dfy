/** AFC framing, pkg/libimobiledevice/afc.go and packet_afc.go. */
module Afc {
  import opened Bytes
  import opened Unarchiver
  import opened AuxBuffers

  const AFC_MAGIC: seq<byte> := [0x43, 0x46, 0x41, 0x36, 0x4C, 0x50, 0x41, 0x41]
  const AFC_HEADER: int := 40

  /** make panics on a slice longer than this, on the 64-bit platforms the library is built for. */
  const MAX_ALLOC: int := 0x1_0000_0000_0000

  datatype AfcHeader = AfcHeader(entireLen: u64, thisLen: u64, packetNum: u64, operation: u64)

  function HeaderBytes(h: AfcHeader): (b: seq<byte>)
    ensures |b| == AFC_HEADER
  {
    AFC_MAGIC + Le64(h.entireLen) + Le64(h.thisLen) + Le64(h.packetNum) + Le64(h.operation)
  }

  /** unpack; None is the error on a foreign magic. */
  function HeaderOf(b: seq<byte>): Option<AfcHeader>
    requires |b| == AFC_HEADER
  {
    if b[..8] != AFC_MAGIC then None
    else Some(AfcHeader(FromLe64(b[8..16]), FromLe64(b[16..24]), FromLe64(b[24..32]), FromLe64(b[32..40])))
  }

  lemma HeaderRoundTrip(h: AfcHeader)
    ensures HeaderOf(HeaderBytes(h)) == Some(h)
  {
    hide Le64, FromLe64;
    var b := HeaderBytes(h);
    assert b[..8] == AFC_MAGIC && b[8..16] == Le64(h.entireLen) && b[16..24] == Le64(h.thisLen);
    assert b[24..32] == Le64(h.packetNum) && b[32..40] == Le64(h.operation);
    Le64RoundTrip(h.entireLen); Le64RoundTrip(h.thisLen); Le64RoundTrip(h.packetNum); Le64RoundTrip(h.operation);
  }

  /** Where the fields stand on the wire, behind "CFA6LPAA". */
  lemma HeaderLayout(h: AfcHeader)
    ensures var b := HeaderBytes(h);
            b[..8] == [0x43, 0x46, 0x41, 0x36, 0x4C, 0x50, 0x41, 0x41]
            && At64(b, 8) == h.entireLen && At64(b, 16) == h.thisLen && At64(b, 24) == h.packetNum
            && At64(b, 32) == h.operation
  {
    hide HeaderBytes, FromLe64, At64;
    var b := HeaderBytes(h);
    HeaderRoundTrip(h);
    FieldAt64(b, 8); FieldAt64(b, 16); FieldAt64(b, 24); FieldAt64(b, 32);
  }

  lemma HeaderInverse(b: seq<byte>)
    requires |b| == AFC_HEADER && HeaderOf(b).Some?
    ensures HeaderBytes(HeaderOf(b).value) == b
  {
    hide Le64, FromLe64;
    FromLe64Inverse(b[8..16]); FromLe64Inverse(b[16..24]); FromLe64Inverse(b[24..32]); FromLe64Inverse(b[32..40]);
    assert b == b[..8] + b[8..16] + b[16..24] + b[24..32] + b[32..40];
  }

  /** An operation with its data and payload; a nil slice and an empty one are the same on the wire. */
  datatype Request = Request(operation: u64, data: seq<byte>, payload: seq<byte>)

  /** The header of a packet with its data, and the whole packet. */
  function Head(r: Request, num: u64): (b: seq<byte>)
    ensures |b| == AFC_HEADER + |r.data|
  {
    HeaderBytes(AfcHeader((AFC_HEADER + |r.data| + |r.payload|) % TWO64, (AFC_HEADER + |r.data|) % TWO64,
                          num, r.operation))
    + r.data
  }

  function Packet(r: Request, num: u64): seq<byte> { Head(r, num) + r.payload }

  /** The packet number after num. */
  function Next(num: u64): u64 { (num + 1) % TWO64 }

  function Packets(rs: seq<Request>, num: u64): seq<byte>
    decreases |rs|
  {
    if rs == [] then [] else Packet(rs[0], Next(num)) + Packets(rs[1..], Next(num))
  }

  datatype AfcMessage = AfcMessage(operation: u64, data: seq<byte>, payload: seq<byte>)

  datatype Received = Got(m: AfcMessage, num: u64) | StreamEnded | BadHeader | NoData | Panicked

  /** One message and the bytes behind it. */
  function Receive(input: seq<byte>): (Received, seq<byte>) {
    if |input| < AFC_HEADER then (StreamEnded, [])
    else
      var h, rest := HeaderOf(input[..AFC_HEADER]), input[AFC_HEADER..];
      if h.None? then (BadHeader, rest)
      else
        var length := if h.value.entireLen > AFC_HEADER then h.value.entireLen - AFC_HEADER else 0;
        if length > MAX_ALLOC then (Panicked, rest)
        else if |rest| < length then (StreamEnded, [])
        else (Split(h.value, rest[..length]), rest[length..])
  }

  /** Data and payload of a body; the length of the data is computed on 64 bits. */
  function Split(h: AfcHeader, body: seq<byte>): Received {
    var n := (h.thisLen - AFC_HEADER) % TWO64;
    if n > MAX_ALLOC then Panicked
    else if body == [] && n > 0 then NoData
    else Got(AfcMessage(h.operation, Filled(body, n), Dropped(body, n)), h.packetNum)
  }

  class AfcClient {
    var packetNum: u64
    var outgoing: seq<byte>
    var incoming: seq<byte>

    constructor (stream: seq<byte>)
      ensures packetNum == 0 && outgoing == [] && incoming == stream
    {
      packetNum, outgoing, incoming := 0, [], stream;
    }

    method NewPacket(operation: u64, data: seq<byte>, payload: seq<byte>) returns (h: AfcHeader)
      modifies this`packetNum
      ensures packetNum == Next(old(packetNum))
      ensures h == AfcHeader((AFC_HEADER + |data| + |payload|) % TWO64, (AFC_HEADER + |data|) % TWO64,
                             packetNum, operation)
    {
      packetNum := Next(packetNum);
      h := AfcHeader((AFC_HEADER + |data| + |payload|) % TWO64, (AFC_HEADER + |data|) % TWO64, packetNum, operation);
    }

    /** Send: first the header and the data, then the payload if there is one; either write may break off. */
    method Send(r: Request, first: Write, second: Write) returns (ok: bool)
      modifies this`packetNum, this`outgoing
      ensures packetNum == Next(old(packetNum))
      ensures ok <==> Succeeds(Head(r, packetNum), first) && (r.payload == [] || Succeeds(r.payload, second))
      ensures ok ==> outgoing == old(outgoing) + Packet(r, packetNum)
      ensures !ok ==> exists n :: 0 <= n <= |Packet(r, packetNum)|
                               && outgoing == old(outgoing) + Packet(r, packetNum)[..n]
    {
      hide HeaderBytes, Head;
      var buf := BuildHead(r);
      outgoing := outgoing + Written(buf, first);
      if !Succeeds(buf, first) {
        assert Packet(r, packetNum)[..first.n] == buf[..first.n];
        return false;
      }
      if r.payload == [] {
        assert Packet(r, packetNum) == buf;
        return true;
      }
      outgoing := outgoing + Written(r.payload, second);
      assert old(outgoing) + buf + Written(r.payload, second) == old(outgoing) + (buf + Written(r.payload, second));
      ok := Succeeds(r.payload, second);
      if !ok { assert Packet(r, packetNum)[..|buf| + second.n] == buf + r.payload[..second.n]; }
    }

    method BuildHead(r: Request) returns (buf: seq<byte>)
      modifies this`packetNum
      ensures packetNum == Next(old(packetNum)) && buf == Head(r, packetNum)
    {
      var h := NewPacket(r.operation, r.data, r.payload);
      buf := HeaderBytes(h);
      buf := buf + r.data;
    }

    method ReceiveMessage() returns (r: Received)
      modifies this`incoming
      ensures (r, incoming) == Receive(old(incoming))
    {
      if |incoming| < AFC_HEADER {
        incoming := [];
        return StreamEnded;
      }
      var h := HeaderOf(incoming[..AFC_HEADER]);
      incoming := incoming[AFC_HEADER..];
      if h.None? { return BadHeader; }
      var buffer: seq<byte> := [];
      if h.value.entireLen > AFC_HEADER {
        // int(length) may be negative, which make refuses as well
        var length := h.value.entireLen - AFC_HEADER;
        if length > MAX_ALLOC { return Panicked; }
        if |incoming| < length {
          incoming := [];
          return StreamEnded;
        }
        buffer := incoming[..length];
        incoming := incoming[length..];
      }
      var n := (h.value.thisLen - AFC_HEADER) % TWO64;
      if n > MAX_ALLOC { return Panicked; }
      if buffer == [] && n > 0 { return NoData; }
      r := Got(AfcMessage(h.value.operation, Filled(buffer, n), Dropped(buffer, n)), h.value.packetNum);
    }
  }

  /** Data and payload that a receiver can hold in one slice. */
  predicate Fits(r: Request) { |r.data| + |r.payload| <= MAX_ALLOC }

  /** One packet is read back, to its last byte. */
  lemma PacketRoundTrip(r: Request, num: u64, rest: seq<byte>)
    requires Fits(r)
    ensures Receive(Packet(r, num) + rest) == (Got(AfcMessage(r.operation, r.data, r.payload), num), rest)
  {
    hide HeaderBytes, HeaderOf;
    var h := AfcHeader(AFC_HEADER + |r.data| + |r.payload|, AFC_HEADER + |r.data|, num, r.operation);
    var body := r.data + r.payload;
    var input := Packet(r, num) + rest;
    assert input == HeaderBytes(h) + (body + rest);
    assert input[..AFC_HEADER] == HeaderBytes(h) && input[AFC_HEADER..] == body + rest;
    HeaderRoundTrip(h);
    assert (body + rest)[..|body|] == body && (body + rest)[|body|..] == rest;
    assert Filled(body, |r.data|) == r.data && Dropped(body, |r.data|) == r.payload;
  }

  /**
   Any header, with whatever stands behind it: as many bytes are taken as it announces, or none are left; the data is
   the announced beginning of them, filled up with zeros if there are too few, and the payload is the rest.
   */
  lemma MessageRead(h: AfcHeader, tail: seq<byte>)
    ensures var length, n := if h.entireLen > 40 then h.entireLen - 40 else 0, h.thisLen - 40;
            var (r, rest) := Receive(HeaderBytes(h) + tail);
            if length > 0x1_0000_0000_0000 then r == Panicked && rest == tail
            else if length > |tail| then r == StreamEnded && rest == []
            else
              rest == tail[length..]
              && if n < 0 || n > 0x1_0000_0000_0000 then r == Panicked
                 else if length == 0 && n > 0 then r == NoData
                 else
                   r.Got? && r.num == h.packetNum && r.m.operation == h.operation && |r.m.data| == n
                   && r.m.data + r.m.payload == tail[..length] + (if n > length then seq(n - length, i => 0) else [])
  {
    hide HeaderBytes, HeaderOf;
    var input := HeaderBytes(h) + tail;
    HeaderRoundTrip(h);
    assert input[..AFC_HEADER] == HeaderBytes(h) && input[AFC_HEADER..] == tail;
    if h.thisLen < 40 { assert (h.thisLen - AFC_HEADER) % TWO64 == h.thisLen - AFC_HEADER + TWO64; }
  }

  /** A stream without a whole header, or with a foreign one. */
  lemma HeaderMissing(input: seq<byte>)
    ensures |input| < 40 ==> Receive(input) == (StreamEnded, [])
    ensures |input| >= 40 && input[..8] != [0x43, 0x46, 0x41, 0x36, 0x4C, 0x50, 0x41, 0x41] ==>
              Receive(input) == (BadHeader, input[40..])
  {
    hide FromLe64;
    if |input| >= 40 { assert input[..AFC_HEADER][..8] == input[..8]; }
  }

  /** n receives in a row. */
  function ReceiveAll(input: seq<byte>, n: nat): (seq<Received>, seq<byte>)
    decreases n
  {
    if n == 0 then ([], input)
    else
      var (first, rest) := Receive(input);
      var (more, end) := ReceiveAll(rest, n - 1);
      ([first] + more, end)
  }

  function Answers(rs: seq<Request>, num: u64): (as': seq<Received>)
    ensures |as'| == |rs|
    decreases |rs|
  {
    if rs == [] then []
    else [Got(AfcMessage(rs[0].operation, rs[0].data, rs[0].payload), Next(num))] + Answers(rs[1..], Next(num))
  }

  lemma PacketsStep(rs: seq<Request>, num: u64, rest: seq<byte>)
    requires rs != [] && Fits(rs[0])
    requires ReceiveAll(Packets(rs[1..], Next(num)) + rest, |rs| - 1) == (Answers(rs[1..], Next(num)), rest)
    ensures ReceiveAll(Packets(rs, num) + rest, |rs|) == (Answers(rs, num), rest)
  {
    hide Receive, Packet, Fits, Next;
    var tail := Packets(rs[1..], Next(num)) + rest;
    assert Packets(rs, num) + rest == Packet(rs[0], Next(num)) + tail;
    PacketRoundTrip(rs[0], Next(num), tail);
  }

  /** Any sequence of requests is read back in order, with nothing left over and nothing taken from behind. */
  lemma {:induction false} PacketsRoundTrip(rs: seq<Request>, num: u64, rest: seq<byte>)
    requires forall i :: 0 <= i < |rs| ==> Fits(rs[i])
    ensures ReceiveAll(Packets(rs, num) + rest, |rs|) == (Answers(rs, num), rest)
    decreases |rs|
  {
    if rs == [] {
      assert Packets(rs, num) + rest == rest;
    } else {
      PacketsRoundTrip(rs[1..], Next(num), rest);
      PacketsStep(rs, num, rest);
    }
  }

  /** The i-th answer carries the i-th number after the last one used: until the counter wraps they increase. */
  lemma {:induction false} AnswerNumbers(rs: seq<Request>, num: u64, i: nat)
    requires i < |rs|
    ensures Answers(rs, num)[i] == Got(AfcMessage(rs[i].operation, rs[i].data, rs[i].payload), (num + i + 1) % TWO64)
    decreases |rs|
  {
    if i > 0 {
      AnswerNumbers(rs[1..], Next(num), i - 1);
      NextPlus(num, i);
      hide Next;
    }
  }

  lemma NextPlus(num: u64, i: nat)
    ensures (Next(num) + i) % TWO64 == (num + i + 1) % TWO64
  {
    if num == TWO64 - 1 { assert (i + TWO64) % TWO64 == i % TWO64; }
  }
}
