/**
 A method call from one client to another: the keyed archive inside the auxiliary buffer inside the DTX
 packet, written by the one side's code and read by the other's.
 */
module EndToEnd {
  import opened Bytes
  import opened GoValues
  import opened Unarchiver
  import opened Archiver
  import opened KeyedArchive
  import opened AuxBuffers
  import opened DtxPackets
  import opened DtxMessages
  import opened DtxClient
  import opened DtxRuns

  /** An argument: a value, with one of the tables Marshal may make of it, or an integer. */
  datatype Argument = ArgObject(v: Value, t: seq<Value>) | ArgInt32(n: i32) | ArgInt64(m: i64)

  function ItemOf(p: Plist, a: Argument): Item {
    match a
    case ArgObject(_, t) => Object(p.marshal(ObjectArchive(t, 1)))
    case ArgInt32(n) => Int32(n)
    case ArgInt64(n) => Int64(n)
  }

  function ItemsOfAll(p: Plist, args: seq<Argument>): (items: seq<Item>)
    ensures |items| == |args|
  {
    seq(|args|, i requires 0 <= i < |args| => ItemOf(p, args[i]))
  }

  function Given(a: Argument): Value {
    match a
    case ArgObject(v, _) => v
    case ArgInt32(n) => Int(n)
    case ArgInt64(n) => Int(n)
  }

  function GivenAll(args: seq<Argument>): (vs: seq<Value>)
    ensures |vs| == |args|
  {
    seq(|args|, i requires 0 <= i < |args| => Given(args[i]))
  }

  /** What the decoder is in a receiver: Unmarshal of a new archiver, on a stack of the given depth. */
  function DecoderOf(p: Plist, stack: nat): Decoder { raw => Unarchive(p, raw, stack) }

  /** A plain value the stack is deep enough for, whose archive survives and fits a 32-bit length. */
  ghost predicate Sendable(p: Plist, stack: nat, a: Argument) {
    a.ArgObject? ==>
      TableOf(a.v, a.t) && Plain(a.v) && stack >= 2 * Size(a.v)
      && p.Keeps(ObjectArchive(a.t, 1)) && |p.marshal(ObjectArchive(a.t, 1))| < TWO32
  }

  lemma ArgumentReadable(p: Plist, stack: nat, a: Argument)
    requires Sendable(p, stack, a)
    ensures Readable(DecoderOf(p, stack), ItemOf(p, a)) && ValueOf(DecoderOf(p, stack), ItemOf(p, a)) == Given(a)
  {
    if a.ArgObject? {
      hide Unarchive, TableOf, Size, Plain;
      RoundTrip(p, a.v, a.t, stack);
      EntriesEncodable(a.t) by { assert Entries(a.t) by { TableEntries(a.v, a.t); } }
    }
  }

  lemma TableEntries(v: Value, t: seq<Value>)
    requires TableOf(v, t)
    ensures Entries(t)
  {}

  /** The auxiliary buffer alone. */
  lemma ArgumentsRead(p: Plist, stack: nat, args: seq<Argument>)
    requires forall i :: 0 <= i < |args| ==> Sendable(p, stack, args[i])
    requires |Body(ItemsOfAll(p, args))| < TWO64
    ensures Parse(DecoderOf(p, stack), Framed(Body(ItemsOfAll(p, args)))) == Items(GivenAll(args))
  {
    hide Sendable, Parse, Body, Framed, Readable, ItemOf, ValueOf, Given;
    var d, items := DecoderOf(p, stack), ItemsOfAll(p, args);
    forall i | 0 <= i < |items| ensures Readable(d, items[i]) && ValueOf(d, items[i]) == Given(args[i]) {
      ArgumentReadable(p, stack, args[i]);
    }
    AuxRoundTrip(d, items);
    assert Values(d, items) == GivenAll(args);
  }

  /** The payload of a call, taken apart: the parts are found, unless the call expects a reply. */
  lemma CallPayloadDecoded(d: Decoder, sel: seq<byte>, aux: seq<byte>, expectsReply: bool)
    requires PAYLOAD_SIZE + |aux| + |sel| < TWO32
    ensures DecodePayload(d, PayloadBytes(CallPayload(sel, aux, expectsReply)) + aux + sel)
         == if expectsReply then Refused(Compressed) else DecodeParts(d, aux, sel)
  {
    var p := CallPayload(sel, aux, expectsReply);
    var raw := PayloadBytes(p) + aux + sel;
    hide PayloadBytes, PayloadOf, DecodeParts, GuardedSlice;
    assert PayloadOf(raw[..PAYLOAD_SIZE]) == p by {
      assert raw[..PAYLOAD_SIZE] == PayloadBytes(p);
      PayloadRoundTrip(p);
    }
    if !expectsReply {
      assert p == Payload(2, |aux|, |aux| + |sel|);
      PartsFound(raw, |aux|, |sel|);
      assert raw[PAYLOAD_SIZE..PAYLOAD_SIZE + |aux|] == aux;
      assert raw[PAYLOAD_SIZE + |aux|..] == sel;
    }
  }

  lemma PartsFound(raw: seq<byte>, n: nat, k: nat)
    requires |raw| == PAYLOAD_SIZE + n + k < TWO32
    ensures (PAYLOAD_SIZE + n) % TWO32 == PAYLOAD_SIZE + n && (PAYLOAD_SIZE + n + (n + k) - n) % TWO64 == |raw|
    ensures GuardedSlice(raw, PAYLOAD_SIZE, PAYLOAD_SIZE + n) == Some(raw[PAYLOAD_SIZE..PAYLOAD_SIZE + n])
    ensures GuardedSlice(raw, PAYLOAD_SIZE + n, |raw|) == Some(raw[PAYLOAD_SIZE + n..])
  {
    assert raw[PAYLOAD_SIZE + n..|raw|] == raw[PAYLOAD_SIZE + n..];
  }

  /**
   Any call packet that fits its 32-bit length, whatever its parts hold: it is consumed to its last byte,
   and its parts reach the decoder if and only if it expects no reply. A call that expects one carries flag
   0x1000, which the receiver takes for a compression type.
   */
  lemma CallReceived(s: State, d: Decoder, id: u32, sel: seq<byte>, aux: seq<byte>, channel: u32, expectsReply: bool,
        rest: seq<byte>)
    requires PAYLOAD_SIZE + |aux| + |sel| < TWO32
    requires s.incoming == CallPacket(id, sel, aux, channel, expectsReply) + rest
    ensures var h := CallHeader(id, sel, aux, channel, expectsReply);
            Receive(s, d) == Deliver(s.(msgID := Bumped(s.msgID, h), incoming := rest), h, Asking(None, h),
                                     if expectsReply then Refused(Compressed) else DecodeParts(d, aux, sel))
  {
    hide HeaderBytes, PayloadBytes, Assemble, DecodePayload, DecodeParts;
    var f := Fragment(CallHeader(id, sel, aux, channel, expectsReply),
                      PayloadBytes(CallPayload(sel, aux, expectsReply)) + aux + sel);
    assert Wire(Whole(f)) == CallPacket(id, sel, aux, channel, expectsReply);
    SynchronisedWhole(s.msgID, f, rest);
    CallPayloadDecoded(d, sel, aux, expectsReply);
  }

  lemma SelectorRead(p: Plist, stack: nat, selector: string)
    requires p.Keeps(SelectorArchive(selector)) && stack >= 2
    ensures SelectorBlob(p, selector) != [] && Unarchive(p, SelectorBlob(p, selector), stack) == Ok(Str(selector))
  {
    var t := SelectorArchive(selector).objects;
    assert TableOf(Str(selector), t);
    RoundTrip(p, Str(selector), t, stack);
    EntriesEncodable(t);
  }

  /**
   End to end: for every selector and every list of arguments, what one client sends another reads. The
   decoded object is the selector and the decoded arguments are those appended, in order; the stream is left
   at the first byte behind the packet; and a later receive finds the result under its key.
   */
  lemma CallEndToEnd(p: Plist, stack: nat, selector: string, args: seq<Argument>, id: u32, channel: u32,
                     s: State, rest: seq<byte>)
    requires p.Keeps(SelectorArchive(selector)) && stack >= 2
    requires forall i :: 0 <= i < |args| ==> Sendable(p, stack, args[i])
    ensures var aux, sel := Framed(Body(ItemsOfAll(p, args))), SelectorBlob(p, selector);
            var packet := CallPacket(id, sel, aux, channel, false);
            var (s', r) := Receive(s.(incoming := packet + rest), DecoderOf(p, stack));
            PAYLOAD_SIZE + |aux| + |sel| < TWO32 ==>
            r.Stored? && r.result == DTXMessageResult(Str(selector), GivenAll(args))
            && r.key == (if selector == CAPABILITIES then Published else Id(id))
            && r.key in s'.results && s'.results[r.key] == r.result
            && s'.incoming == rest && s'.toReply == s.toReply && s'.msgID == if id > s.msgID then id else s.msgID
  {
    var d, sel, aux := DecoderOf(p, stack), SelectorBlob(p, selector), Framed(Body(ItemsOfAll(p, args)));
    hide Body, ItemsOfAll, SelectorBlob, Sendable, Parse, Unarchive, GivenAll, CallPacket, Receive;
    if PAYLOAD_SIZE + |aux| + |sel| < TWO32 {
      var given := s.(incoming := CallPacket(id, sel, aux, channel, false) + rest);
      CallReceived(given, d, id, sel, aux, channel, false, rest);
      ArgumentsRead(p, stack, args);
      SelectorRead(p, stack, selector);
      assert d(sel) == Ok(Str(selector));
      assert DecodeParts(d, aux, sel) == Message(DTXMessageResult(Str(selector), GivenAll(args)));
    }
  }

  // ---------------------------------------------------------------------------------------------
  // Channel requests
  // ---------------------------------------------------------------------------------------------

  /** The arguments of a channel request, read by the decoder: the code and then the name. */
  lemma ChannelArgumentsRead(p: Plist, stack: nat, code: u32, name: string)
    requires p.Keeps(SelectorArchive(name)) && stack >= 2
    ensures |SelectorBlob(p, name)| < TWO32 ==>
              Parse(DecoderOf(p, stack), ChannelArguments(p, code, name)) == Items([Int(ToI32(code)), Str(name)])
  {
    hide Unarchive, SelectorBlob, Encoded, Parse, Framed, ToI32;
    var d, blob := DecoderOf(p, stack), SelectorBlob(p, name);
    if |blob| < TWO32 {
      var items := [Int32(ToI32(code)), Object(blob)];
      SelectorRead(p, stack, name);
      assert AllReadable(d, items);
      assert Values(d, items) == [Int(ToI32(code)), Str(name)];
      ChannelBody(Int32(ToI32(code)), Object(blob));
      AuxRoundTrip(d, items);
    }
  }

  lemma ChannelBody(first: Item, second: Item)
    ensures Body([first, second]) == Encoded(first) + Encoded(second)
    ensures !first.Object? && second.Object? && |second.blob| < TWO32 ==> |Body([first, second])| < TWO64
  {
    hide Encoded;
    assert [first, second][..1] == [first] && [first][..0] == [];
    assert Body([first]) == [] + Encoded(first);
    EncodedLength(first);
    EncodedLength(second);
  }

  lemma EncodedLength(item: Item)
    ensures |Encoded(item)| <= 16 + if item.Object? then |item.blob| else 0
  {
    hide Le32, Le64, ToU32, ToU64;
  }

  /** What the calls of MakeChannel put on the wire, and the number it records. */
  function ChannelRequest(s: State, p: Plist, name: string): seq<byte> {
    CallPacket(NextID(s), SelectorBlob(p, REQUEST_CHANNEL), ChannelArguments(p, (|s.channels| + 1) % TWO32, name),
               0, true)
  }

  /** The archives of name and selector survive, and the request fits its 32-bit length. */
  ghost predicate Requestable(s: State, p: Plist, name: string) {
    p.Keeps(SelectorArchive(name)) && p.Keeps(SelectorArchive("_requestChannelWithCode:identifier:"))
    && |ChannelRequest(s, p, name)| < TWO32
  }

  /**
   A channel request on the wire, read back part by part: on channel 0, a reply expected, the selector
   "_requestChannelWithCode:identifier:", and two arguments, the number the channel will be recorded under and its name.
   */
  lemma ChannelRequestRead(s: State, p: Plist, stack: nat, name: string, d: Decoder, n: nat)
    requires name !in s.channels && |s.channels| + 1 < TWO31 && stack >= 2
    ensures Requestable(s, p, name) ==>
            var number: u32 := |s.channels| + 1;
            var end := Call(s, d, SelectorBlob(p, REQUEST_CHANNEL), ChannelArguments(p, number, name), 0, true,
                            Complete, n).0;
            s.outgoing <= end.outgoing && var sent := end.outgoing[|s.outgoing|..];
            |sent| >= 48 && var head, parts := HeaderOf(sent[..32]), PayloadOf(sent[32..48]);
            head.channelCode == 0 && head.expectsReply == 1 && head.conversationIndex == 0
            && head.identifier == (s.msgID + 1) % TWO32
            && parts.auxiliaryLength <= parts.totalLength == |sent| - 48
            && var split := 48 + parts.auxiliaryLength;
            Parse(DecoderOf(p, stack), sent[48..split]) == Items([Int(number), Str(name)])
            && Unarchive(p, sent[split..], stack) == Ok(Str("_requestChannelWithCode:identifier:"))
            && ChannelsAfter(s.channels, name, true)[name] == number
            && ChannelsAfter(s.channels, name, false) == s.channels
  {
    hide CallPacket, Parse, Unarchive, SelectorBlob, ChannelArguments, HeaderOf, PayloadOf, Call, SelectorArchive;
    var number: u32 := |s.channels| + 1;
    var sel, aux := SelectorBlob(p, REQUEST_CHANNEL), ChannelArguments(p, number, name);
    if Requestable(s, p, name) {
      CallLengths(NextID(s), sel, aux);
      ArgumentsLonger(p, number, name);
      CallOnWire(s, sel, aux, 0, true);
      CallWrites(s, d, sel, aux, n);
      ChannelArgumentsRead(p, stack, number, name);
      SelectorRead(p, stack, REQUEST_CHANNEL);
      var sent := Send(s, sel, aux, 0, true, Complete).outgoing[|s.outgoing|..];
      SplitAt(sent, aux, sel);
      hide Send, Requestable, ChannelRequest;
    }
  }

  lemma SplitAt(sent: seq<byte>, aux: seq<byte>, sel: seq<byte>)
    requires |sent| >= 48 && sent[48..] == aux + sel
    ensures sent[48..48 + |aux|] == aux && sent[48 + |aux|..] == sel
  {
    assert sent[48..48 + |aux|] == sent[48..][..|aux|] && sent[48 + |aux|..] == sent[48..][|aux|..];
  }

  lemma CallLengths(id: u32, sel: seq<byte>, aux: seq<byte>)
    ensures |CallPacket(id, sel, aux, 0, true)| == 48 + |aux| + |sel|
  {
    hide HeaderBytes, PayloadBytes;
  }

  lemma ArgumentsLonger(p: Plist, code: u32, name: string)
    ensures |SelectorBlob(p, name)| <= |ChannelArguments(p, code, name)|
  {
    hide Le32, ToI32, SelectorBlob;
  }

  /** While a caller waits nothing is written. */
  lemma CallWrites(s: State, d: Decoder, sel: seq<byte>, aux: seq<byte>, n: nat)
    ensures Call(s, d, sel, aux, 0, true, Complete, n).0.outgoing == Send(s, sel, aux, 0, true, Complete).outgoing
  {
    hide CallPacket, Receive, ReceiveTimes;
    WaitingWrites(Send(s, sel, aux, 0, true, Complete), d, n);
  }

  lemma {:induction false} WaitingWrites(s: State, d: Decoder, n: nat)
    ensures ReceiveTimes(s, d, n).outgoing == s.outgoing
    decreases n
  {
    hide Receive;
    if n > 0 {
      WaitingWrites(s, d, n - 1);
      ReceiveKeepsChannels(ReceiveTimes(s, d, n - 1), d);
    }
  }
}
