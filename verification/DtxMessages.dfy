/**
 One DTX message on the wire: the packet SendDTXMessage writes, and the loop by which
 ReceiveDTXMessage reassembles a message from its fragments and takes the payload apart.
 */
module DtxMessages {
  import opened Bytes
  import opened GoValues
  import opened Unarchiver
  import opened AuxBuffers
  import opened DtxPackets

  // ---------------------------------------------------------------------------------------------
  // Packets
  // ---------------------------------------------------------------------------------------------

  function CallHeader(id: u32, sel: seq<byte>, aux: seq<byte>, channel: u32, expectsReply: bool): Header {
    Header(MAGIC, HEADER_SIZE, 0, 1, (PAYLOAD_SIZE + |aux| + |sel|) % TWO32, id, 0, channel,
           if expectsReply then 1 else 0)
  }

  function CallPayload(sel: seq<byte>, aux: seq<byte>, expectsReply: bool): Payload {
    Payload(if expectsReply then 0x1002 else 0x2, |aux| % TWO32, (|aux| + |sel|) % TWO64)
  }

  /** A method call: header, payload header, auxiliary buffer, archived selector. */
  function CallPacket(id: u32, sel: seq<byte>, aux: seq<byte>, channel: u32, expectsReply: bool): seq<byte> {
    HeaderBytes(CallHeader(id, sel, aux, channel, expectsReply))
    + (PayloadBytes(CallPayload(sel, aux, expectsReply)) + aux + sel)
  }

  /** The header of the reply to a message, and the packet: a payload header of zeros is its body. */
  function ReplyHeader(h: Header): Header {
    Header(MAGIC, HEADER_SIZE, 0, 1, PAYLOAD_SIZE, h.identifier, (h.conversationIndex + 1) % TWO32, h.channelCode, 0)
  }

  function ReplyPacket(h: Header): seq<byte> {
    HeaderBytes(ReplyHeader(h)) + PayloadBytes(Payload(0, 0, 0))
  }

  /** dtxMessagePacket.Pack, called on the parts of a call. */
  method PackCall(h: Header, p: Payload, aux: seq<byte>, sel: seq<byte>) returns (raw: seq<byte>)
    ensures raw == HeaderBytes(h) + (PayloadBytes(p) + aux + sel)
  {
    raw := PackHeader(h);
    var payload := PackPayload(p);
    raw := raw + payload;
    raw := raw + aux;
    raw := raw + sel;
  }

  // ---------------------------------------------------------------------------------------------
  // Reassembly
  // ---------------------------------------------------------------------------------------------

  datatype Error = EndOfStream | BadMagic | BadIdentifier | BadConversation | ShortPayload
                 | Compressed | BadAux(fault: Fault) | BadObject

  /** The checks a header passes before anything behind it is read. */
  predicate Accepts(msgID: u32, h: Header) {
    h.magic == MAGIC
    && (h.conversationIndex == 0 || (h.conversationIndex == 1 && h.identifier == msgID))
  }

  function Refusal(msgID: u32, h: Header): Error {
    if h.magic != MAGIC then BadMagic
    else if h.conversationIndex == 1 then BadIdentifier
    else BadConversation
  }

  /** A conversation opened by the peer moves the identifier counter on. */
  function Bumped(msgID: u32, h: Header): u32 {
    if h.conversationIndex == 0 && h.identifier > msgID then h.identifier else msgID
  }

  predicate Announces(h: Header) { h.fragmentId == 0 && h.fragmentCount > 1 }

  /** FragmentCount - 1 is computed on 16 bits. */
  predicate Closes(h: Header) { h.fragmentId == (h.fragmentCount - 1) % TWO16 }

  function Asking(need: Option<Header>, h: Header): Option<Header> {
    if h.expectsReply == 1 then Some(h) else need
  }

  datatype Assembly =
    | Assembled(last: Header, need: Option<Header>, raw: seq<byte>, msgID: u32, rest: seq<byte>)
    | Broken(error: Error, msgID: u32, rest: seq<byte>)

  /** The receive loop, from any point of it on: what it has collected, and the bytes still to come. */
  function Assemble(msgID: u32, input: seq<byte>, buf: seq<byte>, need: Option<Header>): Assembly
    decreases |input|
  {
    if |input| < HEADER_SIZE then Broken(EndOfStream, msgID, [])
    else Continue(msgID, HeaderOf(input[..HEADER_SIZE]), input[HEADER_SIZE..], buf, need)
  }

  function Continue(msgID: u32, h: Header, rest: seq<byte>, buf: seq<byte>, need: Option<Header>): Assembly
    decreases |rest| + 1
  {
    if !Accepts(msgID, h) then Broken(Refusal(msgID, h), msgID, rest)
    else if Announces(h) then Assemble(Bumped(msgID, h), rest, buf, Asking(need, h))
    else if |rest| < h.length then Broken(EndOfStream, Bumped(msgID, h), [])
    else if Closes(h) then
      Assembled(h, Asking(need, h), buf + rest[..h.length], Bumped(msgID, h), rest[h.length..])
    else Assemble(Bumped(msgID, h), rest[h.length..], buf + rest[..h.length], Asking(need, h))
  }

  // ---------------------------------------------------------------------------------------------
  // The payload
  // ---------------------------------------------------------------------------------------------

  /** What a message says: the decoded object (nil if there is none) and the decoded arguments. */
  datatype DTXMessageResult = DTXMessageResult(obj: Value, aux: seq<Value>)

  datatype Decoded = Message(result: DTXMessageResult) | Refused(error: Error) | Crash

  /** (Flags & 0xff000) >> 12 */
  function Compression(flags: u32): nat { flags / 0x1000 % 0x100 }

  /** A slice expression b[lo:hi] guarded by int(hi) <= len(b): None when it panics. */
  function GuardedSlice(b: seq<byte>, lo: u64, hi: u64): Option<seq<byte>> {
    if ToI64(hi) > |b| then Some([])
    else if lo <= hi <= |b| then Some(b[lo..hi])
    else None
  }

  function DecodePayload(d: Decoder, raw: seq<byte>): Decoded {
    if |raw| < PAYLOAD_SIZE then Refused(ShortPayload)
    else
      var p := PayloadOf(raw[..PAYLOAD_SIZE]);
      if Compression(p.flags) != 0 then Refused(Compressed)
      else
        // the end of the auxiliary buffer is computed on 32 bits, that of the object on 64
        var auxEnd: u64 := (PAYLOAD_SIZE + p.auxiliaryLength) % TWO32;
        var objEnd: u64 := (auxEnd + p.totalLength - p.auxiliaryLength) % TWO64;
        var aux, obj := GuardedSlice(raw, PAYLOAD_SIZE, auxEnd), GuardedSlice(raw, auxEnd, objEnd);
        if aux.None? || obj.None? then Crash
        else DecodeParts(d, aux.value, obj.value)
  }

  function DecodeParts(d: Decoder, aux: seq<byte>, obj: seq<byte>): Decoded {
    var items := if aux == [] then Items([]) else Parse(d, aux);
    if items.Failed? then
      if items.fault == Panicking || items.fault == Overflow then Crash else Refused(BadAux(items.fault))
    else if obj == [] then Message(DTXMessageResult(Nil, items.values))
    else
      var o := d(obj);
      match o
      case Ok(v) => Message(DTXMessageResult(v, items.values))
      case PlistError => Refused(BadObject)
      case _ => Crash
  }

  // ---------------------------------------------------------------------------------------------
  // Messages as a peer sends them
  // ---------------------------------------------------------------------------------------------

  datatype Fragment = Fragment(header: Header, body: seq<byte>)

  /** A message sent whole, or announced by a header without a body and followed by its fragments. */
  datatype Sent = Whole(one: Fragment) | Split(first: Header, parts: seq<Fragment>)

  predicate IsFragment(f: Fragment, id: nat, count: nat) {
    f.header.fragmentId == id && f.header.fragmentCount == count && f.header.length == |f.body|
  }

  predicate WellFormed(m: Sent) {
    match m
    case Whole(f) => IsFragment(f, 0, 1)
    case Split(first, parts) =>
      |parts| > 0 && first.fragmentId == 0 && first.fragmentCount == |parts| + 1
      && forall i :: 0 <= i < |parts| ==> IsFragment(parts[i], i + 1, |parts| + 1)
  }

  function FragmentsBytes(parts: seq<Fragment>): seq<byte> {
    if parts == [] then [] else HeaderBytes(parts[0].header) + parts[0].body + FragmentsBytes(parts[1..])
  }

  function Bodies(parts: seq<Fragment>): seq<byte> {
    if parts == [] then [] else parts[0].body + Bodies(parts[1..])
  }

  function HeadersOf(parts: seq<Fragment>): (hs: seq<Header>)
    ensures |hs| == |parts|
  {
    seq(|parts|, i requires 0 <= i < |parts| => parts[i].header)
  }

  function Wire(m: Sent): seq<byte> {
    match m
    case Whole(f) => HeaderBytes(f.header) + f.body
    case Split(first, parts) => HeaderBytes(first) + FragmentsBytes(parts)
  }

  function PayloadSent(m: Sent): seq<byte> {
    match m
    case Whole(f) => f.body
    case Split(_, parts) => Bodies(parts)
  }

  function Headers(m: Sent): (hs: seq<Header>)
    ensures WellFormed(m) ==> |hs| > 0
  {
    match m
    case Whole(f) => [f.header]
    case Split(first, parts) => [first] + HeadersOf(parts)
  }

  /** Every header, in turn, passes the checks. */
  predicate AcceptsAll(msgID: u32, hs: seq<Header>)
    decreases |hs|
  {
    hs == [] || (Accepts(msgID, hs[0]) && AcceptsAll(Bumped(msgID, hs[0]), hs[1..]))
  }

  function BumpedAll(msgID: u32, hs: seq<Header>): u32
    decreases |hs|
  {
    if hs == [] then msgID else BumpedAll(Bumped(msgID, hs[0]), hs[1..])
  }

  function AskingAll(need: Option<Header>, hs: seq<Header>): Option<Header>
    decreases |hs|
  {
    if hs == [] then need else AskingAll(Asking(need, hs[0]), hs[1..])
  }

  lemma HeadOf(h: Header, tail: seq<byte>)
    ensures var b := HeaderBytes(h) + tail; HeaderOf(b[..HEADER_SIZE]) == h && b[HEADER_SIZE..] == tail
  {
    hide HeaderBytes, HeaderOf;
    var b := HeaderBytes(h) + tail;
    assert b[..HEADER_SIZE] == HeaderBytes(h);
    HeaderRoundTrip(h);
  }

  /** One turn of the loop. */
  lemma AssembleOne(msgID: u32, h: Header, tail: seq<byte>, buf: seq<byte>, need: Option<Header>)
    ensures Assemble(msgID, HeaderBytes(h) + tail, buf, need) == Continue(msgID, h, tail, buf, need)
  {
    HeadOf(h, tail);
    hide HeaderBytes, HeaderOf, Continue;
  }

  /** One fragment with a body, in front of anything else. */
  lemma AssembleBody(msgID: u32, f: Fragment, id: nat, count: u16, tail: seq<byte>, buf: seq<byte>,
        need: Option<Header>)
    requires 0 < id < count && IsFragment(f, id, count) && Accepts(msgID, f.header)
    ensures Assemble(msgID, HeaderBytes(f.header) + (f.body + tail), buf, need)
         == if id == count - 1
            then Assembled(f.header, Asking(need, f.header), buf + f.body, Bumped(msgID, f.header), tail)
            else Assemble(Bumped(msgID, f.header), tail, buf + f.body, Asking(need, f.header))
  {
    AssembleOne(msgID, f.header, f.body + tail, buf, need);
    hide Assemble, HeaderBytes, Accepts;
    assert (f.body + tail)[..|f.body|] == f.body && (f.body + tail)[|f.body|..] == tail;
  }

  lemma {:induction false} AssembleFragments(
      msgID: u32, parts: seq<Fragment>, from: nat, count: u16, rest: seq<byte>, buf: seq<byte>, need: Option<Header>)
    requires parts != [] && from > 0 && from + |parts| == count
    requires forall i :: 0 <= i < |parts| ==> IsFragment(parts[i], from + i, count)
    requires AcceptsAll(msgID, HeadersOf(parts))
    ensures Assemble(msgID, FragmentsBytes(parts) + rest, buf, need)
         == Assembled(parts[|parts|-1].header, AskingAll(need, HeadersOf(parts)), buf + Bodies(parts),
                      BumpedAll(msgID, HeadersOf(parts)), rest)
    decreases |parts|
  {
    hide Assemble, HeaderBytes, Accepts, Bumped, Asking, IsFragment;
    var f, hs, more := parts[0], HeadersOf(parts), parts[1..];
    var tail := FragmentsBytes(more) + rest;
    assert FragmentsBytes(parts) + rest == HeaderBytes(f.header) + (f.body + tail);
    assert hs[0] == f.header && hs[1..] == HeadersOf(more);
    assert IsFragment(parts[0], from + 0, count);
    AssembleBody(msgID, f, from, count, tail, buf, need);
    if more == [] {
      assert tail == rest && Bodies(parts) == f.body;
      assert hs[1..] == [];
    } else {
      forall i | 0 <= i < |more| ensures IsFragment(more[i], from + 1 + i, count) {
        assert IsFragment(parts[i + 1], from + (i + 1), count);
      }
      AssembleFragments(Bumped(msgID, f.header), more, from + 1, count, rest, buf + f.body, Asking(need, f.header));
      assert buf + f.body + Bodies(more) == buf + Bodies(parts);
    }
  }

  /**
   Synchronisation: a message whose headers are accepted is consumed to its last byte and no further, and
   its payload is put together in order, whatever stands behind it on the stream.
   */
  lemma Synchronised(msgID: u32, m: Sent, rest: seq<byte>)
    requires WellFormed(m) && AcceptsAll(msgID, Headers(m))
    ensures Assemble(msgID, Wire(m) + rest, [], None)
         == Assembled(Headers(m)[|Headers(m)|-1], AskingAll(None, Headers(m)), PayloadSent(m),
                      BumpedAll(msgID, Headers(m)), rest)
  {
    match m
    case Whole(f) => SynchronisedWhole(msgID, f, rest);
    case Split(first, parts) => SynchronisedSplit(msgID, first, parts, rest);
  }

  lemma SynchronisedWhole(msgID: u32, f: Fragment, rest: seq<byte>)
    requires IsFragment(f, 0, 1) && Accepts(msgID, f.header)
    ensures Assemble(msgID, Wire(Whole(f)) + rest, [], None)
         == Assembled(f.header, Asking(None, f.header), f.body, Bumped(msgID, f.header), rest)
  {
    hide Assemble, HeaderBytes;
    var tail := f.body + rest;
    assert Wire(Whole(f)) + rest == HeaderBytes(f.header) + tail;
    AssembleOne(msgID, f.header, tail, [], None);
    assert tail[..|f.body|] == f.body && tail[|f.body|..] == rest && [] + f.body == f.body;
  }

  lemma SynchronisedSplit(msgID: u32, first: Header, parts: seq<Fragment>, rest: seq<byte>)
    requires WellFormed(Split(first, parts)) && AcceptsAll(msgID, [first] + HeadersOf(parts))
    ensures var hs := [first] + HeadersOf(parts);
            Assemble(msgID, Wire(Split(first, parts)) + rest, [], None)
            == Assembled(hs[|parts|], AskingAll(None, hs), Bodies(parts), BumpedAll(msgID, hs), rest)
  {
    hide Assemble, HeaderBytes, FragmentsBytes;
    var tail := FragmentsBytes(parts) + rest;
    assert Wire(Split(first, parts)) + rest == HeaderBytes(first) + tail;
    AssembleOne(msgID, first, tail, [], None);
    assert ([first] + HeadersOf(parts))[1..] == HeadersOf(parts);
    AssembleFragments(Bumped(msgID, first), parts, 1, first.fragmentCount, rest, [], Asking(None, first));
    assert [] + Bodies(parts) == Bodies(parts);
  }

  /**
   A whole message is consumed exactly when its header is accepted or it has no body: a refused header
   leaves the body on the stream, to be read as the next header.
   */
  lemma ConsumedIff(msgID: u32, f: Fragment, rest: seq<byte>)
    requires IsFragment(f, 0, 1)
    ensures Assemble(msgID, Wire(Whole(f)) + rest, [], None).rest == rest <==> Accepts(msgID, f.header) || f.body == []
    ensures !Accepts(msgID, f.header) ==>
              Assemble(msgID, Wire(Whole(f)) + rest, [], None) == Broken(Refusal(msgID, f.header), msgID, f.body + rest)
  {
    hide Assemble, HeaderBytes;
    var tail := f.body + rest;
    assert Wire(Whole(f)) + rest == HeaderBytes(f.header) + tail;
    AssembleOne(msgID, f.header, tail, [], None);
    assert tail[|f.body|..] == rest;
    if tail == rest { assert |f.body| == 0; }
    if f.body == [] { assert tail == rest; }
  }

  // ---------------------------------------------------------------------------------------------
  // A whole run of messages
  // ---------------------------------------------------------------------------------------------

  function WireAll(ms: seq<Sent>): seq<byte> {
    if ms == [] then [] else Wire(ms[0]) + WireAll(ms[1..])
  }

  predicate AcceptedRun(msgID: u32, ms: seq<Sent>)
    decreases |ms|
  {
    ms == []
    || (WellFormed(ms[0]) && AcceptsAll(msgID, Headers(ms[0]))
        && AcceptedRun(BumpedAll(msgID, Headers(ms[0])), ms[1..]))
  }

  /** The payloads of n receives in a row, as long as none of them breaks off, and the bytes left over. */
  function AssembleRun(msgID: u32, input: seq<byte>, n: nat): Option<(seq<seq<byte>>, seq<byte>)>
    decreases n
  {
    if n == 0 then Some(([], input))
    else
      var a := Assemble(msgID, input, [], None);
      if a.Broken? then None
      else
        match AssembleRun(a.msgID, a.rest, n - 1)
        case None => None
        case Some((payloads, rest)) => Some(([a.raw] + payloads, rest))
  }

  function Payloads(ms: seq<Sent>): (r: seq<seq<byte>>)
    ensures |r| == |ms|
  {
    if ms == [] then [] else [PayloadSent(ms[0])] + Payloads(ms[1..])
  }

  /** Any number of messages, whole or fragmented, come out one by one, each with its own payload. */
  lemma {:induction false} SynchronisedRun(msgID: u32, ms: seq<Sent>, rest: seq<byte>)
    requires AcceptedRun(msgID, ms)
    ensures AssembleRun(msgID, WireAll(ms) + rest, |ms|) == Some((Payloads(ms), rest))
    decreases |ms|
  {
    if ms == [] {
      assert WireAll(ms) + rest == rest;
    } else {
      var tail := WireAll(ms[1..]) + rest;
      assert WireAll(ms) + rest == Wire(ms[0]) + tail;
      Synchronised(msgID, ms[0], tail);
      hide Assemble, Wire, AcceptsAll, Headers;
      SynchronisedRun(BumpedAll(msgID, Headers(ms[0])), ms[1..], rest);
    }
  }
}
