/** The two headers of a DTX message, pkg/libimobiledevice/packet_dtxmessage.go. */
module DtxPackets {
  import opened Bytes

  const MAGIC: u32 := 0x1F3D5B79
  const HEADER_SIZE: int := 32
  const PAYLOAD_SIZE: int := 16

  datatype Header = Header(
    magic: u32, cb: u32, fragmentId: u16, fragmentCount: u16, length: u32,
    identifier: u32, conversationIndex: u32, channelCode: u32, expectsReply: u32)

  datatype Payload = Payload(flags: u32, auxiliaryLength: u32, totalLength: u64)

  function HeaderBytes(h: Header): (b: seq<byte>)
    ensures |b| == HEADER_SIZE
  {
    Le32(h.magic) + Le32(h.cb) + (Le16(h.fragmentId) + Le16(h.fragmentCount)) + Le32(h.length)
    + Le32(h.identifier) + Le32(h.conversationIndex) + Le32(h.channelCode) + Le32(h.expectsReply)
  }

  function HeaderOf(b: seq<byte>): Header
    requires |b| == HEADER_SIZE
  {
    Header(FromLe32(b[0..4]), FromLe32(b[4..8]), FromLe16(b[8..10]), FromLe16(b[10..12]), FromLe32(b[12..16]),
           FromLe32(b[16..20]), FromLe32(b[20..24]), FromLe32(b[24..28]), FromLe32(b[28..32]))
  }

  function PayloadBytes(p: Payload): (b: seq<byte>)
    ensures |b| == PAYLOAD_SIZE
  {
    Le32(p.flags) + Le32(p.auxiliaryLength) + Le64(p.totalLength)
  }

  function PayloadOf(b: seq<byte>): Payload
    requires |b| == PAYLOAD_SIZE
  {
    Payload(FromLe32(b[0..4]), FromLe32(b[4..8]), FromLe64(b[8..16]))
  }

  /** Pack, field by field into the buffer. */
  method PackHeader(h: Header) returns (buf: seq<byte>)
    ensures buf == HeaderBytes(h)
  {
    hide Le32, Le16;
    buf := Le32(h.magic);
    buf := buf + Le32(h.cb);
    buf := buf + (Le16(h.fragmentId) + Le16(h.fragmentCount));
    buf := buf + Le32(h.length);
    buf := buf + Le32(h.identifier);
    buf := buf + Le32(h.conversationIndex);
    buf := buf + Le32(h.channelCode);
    buf := buf + Le32(h.expectsReply);
  }

  method PackPayload(p: Payload) returns (buf: seq<byte>)
    ensures buf == PayloadBytes(p)
  {
    buf := Le32(p.flags);
    buf := buf + Le32(p.auxiliaryLength);
    buf := buf + Le64(p.totalLength);
  }

  /** unpack, consuming the buffer field by field; None is the error of a read at or past its end. */
  method UnpackHeader(buffer: seq<byte>) returns (h: Header, ok: bool)
    ensures ok <==> |buffer| >= HEADER_SIZE
    ensures ok ==> h == HeaderOf(buffer[..HEADER_SIZE])
  {
    h := Header(0, 0, 0, 0, 0, 0, 0, 0, 0);
    if |buffer| < HEADER_SIZE { return h, false; }
    hide FromLe32, FromLe16;
    var b := buffer;
    var magic := FromLe32(b[..4]); b := b[4..];
    var cb := FromLe32(b[..4]); b := b[4..];
    var id, count := FromLe16(b[..2]), FromLe16(b[2..4]); b := b[4..];
    var length := FromLe32(b[..4]); b := b[4..];
    assert b == buffer[16..];
    var identifier := FromLe32(b[..4]); b := b[4..];
    var index := FromLe32(b[..4]); b := b[4..];
    var channel := FromLe32(b[..4]); b := b[4..];
    assert b == buffer[28..];
    h, ok := Header(magic, cb, id, count, length, identifier, index, channel, FromLe32(b[..4])), true;
    var w := buffer[..HEADER_SIZE];
    assert w[0..4] == buffer[..4] && w[4..8] == buffer[4..][..4] && w[8..10] == buffer[4..][4..][..2];
    assert w[10..12] == buffer[4..][4..][2..4] && w[12..16] == buffer[4..][4..][4..][..4];
    assert w[16..20] == buffer[16..][..4] && w[20..24] == buffer[16..][4..][..4];
    assert w[24..28] == buffer[16..][4..][4..][..4] && w[28..32] == buffer[28..][..4];
  }

  /** Header and wire form determine each other. */
  lemma HeaderRoundTrip(h: Header)
    ensures HeaderOf(HeaderBytes(h)) == h
  {
    hide Le32, Le16, FromLe32, FromLe16;
    var b := HeaderBytes(h);
    assert b[0..4] == Le32(h.magic) && b[4..8] == Le32(h.cb);
    assert b[8..10] == Le16(h.fragmentId) && b[10..12] == Le16(h.fragmentCount);
    assert b[12..16] == Le32(h.length) && b[16..20] == Le32(h.identifier);
    assert b[20..24] == Le32(h.conversationIndex) && b[24..28] == Le32(h.channelCode)
           && b[28..32] == Le32(h.expectsReply);
    HeaderFields(h);
  }

  lemma Le16RoundTrip(n: u16)
    ensures FromLe16(Le16(n)) == n
  {}

  lemma HeaderFields(h: Header)
    ensures FromLe32(Le32(h.magic)) == h.magic && FromLe32(Le32(h.cb)) == h.cb
    ensures FromLe16(Le16(h.fragmentId)) == h.fragmentId && FromLe16(Le16(h.fragmentCount)) == h.fragmentCount
    ensures FromLe32(Le32(h.length)) == h.length && FromLe32(Le32(h.identifier)) == h.identifier
    ensures FromLe32(Le32(h.conversationIndex)) == h.conversationIndex
    ensures FromLe32(Le32(h.channelCode)) == h.channelCode && FromLe32(Le32(h.expectsReply)) == h.expectsReply
  {
    hide Le32, FromLe32, Le16, FromLe16;
    Le32RoundTrip(h.magic); Le32RoundTrip(h.cb); Le16RoundTrip(h.fragmentId); Le16RoundTrip(h.fragmentCount);
    Le32RoundTrip(h.length); Le32RoundTrip(h.identifier); Le32RoundTrip(h.conversationIndex);
    Le32RoundTrip(h.channelCode); Le32RoundTrip(h.expectsReply);
  }

  /** Where the fields stand on the wire. */
  lemma HeaderLayout(h: Header)
    ensures var b := HeaderBytes(h);
            At32(b, 0) == h.magic && At32(b, 4) == h.cb && At16(b, 8) == h.fragmentId && At16(b, 10) == h.fragmentCount
            && At32(b, 12) == h.length && At32(b, 16) == h.identifier && At32(b, 20) == h.conversationIndex
            && At32(b, 24) == h.channelCode && At32(b, 28) == h.expectsReply
  {
    hide HeaderBytes, FromLe32, FromLe16, At32, At16;
    var b := HeaderBytes(h);
    HeaderRoundTrip(h);
    FieldAt32(b, 0); FieldAt32(b, 4); FieldAt16(b, 8); FieldAt16(b, 10); FieldAt32(b, 12);
    FieldAt32(b, 16); FieldAt32(b, 20); FieldAt32(b, 24); FieldAt32(b, 28);
  }

  lemma HeaderInverse(b: seq<byte>)
    requires |b| == HEADER_SIZE
    ensures HeaderBytes(HeaderOf(b)) == b
  {
    hide Le32, FromLe32;
    FromLe32Inverse(b[0..4]); FromLe32Inverse(b[4..8]); FromLe32Inverse(b[12..16]); FromLe32Inverse(b[16..20]);
    FromLe32Inverse(b[20..24]); FromLe32Inverse(b[24..28]); FromLe32Inverse(b[28..32]);
    Le16Inverse(b[8..10]); Le16Inverse(b[10..12]);
    hide Le16, FromLe16;
    assert b == b[0..4] + b[4..8] + (b[8..10] + b[10..12]) + b[12..16] + b[16..20] + b[20..24] + b[24..28] + b[28..32];
  }

  lemma Le16Inverse(b: seq<byte>)
    requires |b| == 2
    ensures Le16(FromLe16(b)) == b
  {}

  lemma PayloadLayout(p: Payload)
    ensures var b := PayloadBytes(p);
            At32(b, 0) == p.flags && At32(b, 4) == p.auxiliaryLength && At64(b, 8) == p.totalLength
  {
    hide PayloadBytes, FromLe32, FromLe64, At32, At64;
    var b := PayloadBytes(p);
    PayloadRoundTrip(p);
    FieldAt32(b, 0); FieldAt32(b, 4); FieldAt64(b, 8);
  }

  lemma PayloadRoundTrip(p: Payload)
    ensures PayloadOf(PayloadBytes(p)) == p
  {
    hide Le32, FromLe32, Le64, FromLe64;
    var b := PayloadBytes(p);
    assert b[0..4] == Le32(p.flags) && b[4..8] == Le32(p.auxiliaryLength) && b[8..16] == Le64(p.totalLength);
    Le32RoundTrip(p.flags); Le32RoundTrip(p.auxiliaryLength); Le64RoundTrip(p.totalLength);
  }
}
