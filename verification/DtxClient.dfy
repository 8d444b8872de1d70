/**
 The DTX connection, pkg/libimobiledevice/client_dtxmessage.go. The peer is a stream of bytes to be read
 (`incoming`) and a stream of bytes written (`outgoing`); a read fails when the stream has ended, a write
 may break off. Sends, receives, polls for a result and replies are atomic steps.
 */
module DtxClient {
  import opened Bytes
  import opened GoValues
  import opened Unarchiver
  import opened KeyedArchive
  import opened AuxBuffers
  import opened DtxPackets
  import opened DtxMessages

  const CAPABILITIES: string := "_notifyOfPublishedCapabilities:"

  /** The names of the callbacks a client starts with. */
  const UNREGISTERED: string := "_Golang-iDevice_Unregistered"
  const OVER: string := "_Golang-iDevice_Over"

  /** The two kinds of key resultMap is used with. */
  datatype Key = Id(id: u32) | Published

  datatype State = State(
    msgID: u32,
    channels: map<string, u32>,
    results: map<Key, DTXMessageResult>,
    toReply: multiset<Header>,
    incoming: seq<byte>,
    outgoing: seq<byte>,
    callbacks: set<string>,
    called: seq<(string, DTXMessageResult)>)

  /** What a receive comes to. */
  datatype Receipt =
    | Stored(last: Header, key: Key, result: DTXMessageResult)
    | Asked(request: Header, answered: DTXMessageResult)
    | Broke(error: Error)
    | Crashed

  function KeyFor(last: Header, result: DTXMessageResult): Key {
    if result.obj == Str(CAPABILITIES) then Published else Id(last.identifier)
  }

  // ---------------------------------------------------------------------------------------------
  // The steps, as functions of the state
  // ---------------------------------------------------------------------------------------------

  function NextID(s: State): u32 { (s.msgID + 1) % TWO32 }

  function Send(s: State, sel: seq<byte>, aux: seq<byte>, channel: u32, expectsReply: bool, w: Write): State {
    s.(msgID := NextID(s),
       outgoing := s.outgoing + Written(CallPacket(NextID(s), sel, aux, channel, expectsReply), w))
  }

  function Receive(s: State, d: Decoder): (State, Receipt) {
    match Assemble(s.msgID, s.incoming, [], None)
    case Broken(e, id, rest) => (s.(msgID := id, incoming := rest), Broke(e))
    case Assembled(last, need, raw, id, rest) =>
      Deliver(s.(msgID := id, incoming := rest), last, need, DecodePayload(d, raw))
  }

  /** The callback a message goes to: the one registered for its object, if that is a string, or the catch-all. */
  function CallbackFor(callbacks: set<string>, obj: Value): string {
    var name := if obj.Str? then obj.s else "";
    if name in callbacks then name else UNREGISTERED
  }

  /**
   A message is handed to a callback. One that asked for a reply is then queued for it; any other is left for
   whoever waits for its key.
   */
  function Deliver(s: State, last: Header, need: Option<Header>, m: Decoded): (State, Receipt) {
    match m
    case Refused(e) => (s, Broke(e))
    case Crash => (s, Crashed)
    case Message(r) =>
      var s' := s.(called := s.called + [(CallbackFor(s.callbacks, r.obj), r)]);
      if need.Some? then (s'.(toReply := s.toReply + multiset{need.value}), Asked(need.value, r))
      else (s'.(results := s.results[KeyFor(last, r) := r]), Stored(last, KeyFor(last, r), r))
  }

  lemma ReceiveKeepsChannels(s: State, d: Decoder)
    ensures Receive(s, d).0.channels == s.channels && Receive(s, d).0.outgoing == s.outgoing
  {
    hide Assemble, DecodePayload;
  }

  function Poll(s: State, key: Key): (State, Option<DTXMessageResult>) {
    if key in s.results then (s.(results := s.results - {key}), Some(s.results[key])) else (s, None)
  }

  function Answer(s: State, h: Header, w: Write): State {
    s.(toReply := s.toReply - multiset{h}, outgoing := s.outgoing + Written(ReplyPacket(h), w))
  }

  function ReceiveTimes(s: State, d: Decoder, n: nat): State {
    if n == 0 then s else Receive(ReceiveTimes(s, d, n - 1), d).0
  }

  /** The errors whose text has "EOF" in it: the receive loop ends on one, wherever it comes from. */
  predicate Ends(r: Receipt) {
    r.Broke? && (r.error == EndOfStream || r.error == ShortPayload || r.error == BadAux(Eof))
  }

  /**
   The text of an error, as far as it is fixed: where it came up and what it was. "plist" stands for the words of the
   property-list library.
   */
  function ErrorText(e: Error): string { Where(e) + Cause(e) }

  function Where(e: Error): string {
    match e
    case EndOfStream => "receive: length of DTXMessageHeader: "
    case ShortPayload => "receive: unpack DTXMessagePayload: packet (DTXMessagePayloadHeader) unpack: "
    case BadAux(_) => "receive: unpack AUX: "
    case BadObject => "receive: unpack NSKeyedArchiver: "
    case _ => "receive: "
  }

  function Cause(e: Error): string {
    match e
    case EndOfStream => "EOF"
    case ShortPayload => "EOF"
    case BadAux(Eof) => "EOF"
    case BadAux(TooShort) => "package length not enough"
    case BadMagic => "bad magic "
    case BadIdentifier => "except identifier "
    case BadConversation => "invalid conversationIndex "
    case Compressed => "message is compressed type "
    case _ => "plist"
  }

  predicate NamesEOF(text: string) { exists i :: 0 <= i <= |text| - 3 && EOFAt(text, i) }

  predicate EOFAt(text: string, i: nat)
    requires i + 3 <= |text|
  {
    text[i] == 'E' && text[i+1] == 'O' && text[i+2] == 'F'
  }

  lemma EndsIff(e: Error)
    ensures Ends(Broke(e)) <==> NamesEOF(ErrorText(e))
  {
    EndCauses(e);
    hide Where, Cause;
    var text := ErrorText(e);
    if Ends(Broke(e)) {
      assert text[|Where(e)|..] == "EOF";
      assert EOFAt(text, |Where(e)|);
    } else {
      NoCapitalWhere(e);
      NoCapitalCause(e);
    }
  }

  lemma EndCauses(e: Error)
    ensures Ends(Broke(e)) ==> Cause(e) == "EOF"
  {}

  lemma NoCapitalWhere(e: Error)
    requires !Ends(Broke(e))
    ensures 'E' !in Where(e)
  {}

  lemma NoCapitalCause(e: Error)
    requires !Ends(Broke(e))
    ensures 'E' !in Cause(e)
  {
    if e.BadConversation? || e.Compressed? { NoCapitalLong(e); hide Cause; }
  }

  lemma NoCapitalLong(e: Error)
    requires e.BadConversation? || e.Compressed?
    ensures 'E' !in Cause(e)
  {}

  /** The receive loop, up to n messages, and whether it has ended. */
  function ReceiveLoop(s: State, d: Decoder, n: nat): (State, bool) {
    if n == 0 then (s, false)
    else
      var (before, ended) := ReceiveLoop(s, d, n - 1);
      if ended then (before, true) else (Receive(before, d).0, Ends(Receive(before, d).1))
  }

  /** It makes its receives in a row, all of them unless one ends it, and goes no further than that one. */
  lemma {:induction false} LoopReceives(s: State, d: Decoder, n: nat) returns (k: nat)
    ensures k <= n && ReceiveLoop(s, d, n).0 == ReceiveTimes(s, d, k)
    ensures ReceiveLoop(s, d, n).1 <==> k > 0 && Ends(Receive(ReceiveTimes(s, d, k - 1), d).1)
    ensures !ReceiveLoop(s, d, n).1 ==> k == n
    ensures forall j :: 0 <= j < k - 1 ==> !Ends(Receive(ReceiveTimes(s, d, j), d).1)
    decreases n
  {
    hide Receive;
    k := 0;
    if n > 0 {
      k := LoopReceives(s, d, n - 1);
      if !ReceiveLoop(s, d, n - 1).1 { k := n; }
    }
  }

  /** A call from its sending to the poll after n receives; no reply is waited for after a broken write. */
  function Call(s: State, d: Decoder, sel: seq<byte>, aux: seq<byte>, channel: u32, expectsReply: bool,
                w: Write, n: nat): (State, Option<DTXMessageResult>)
  {
    var sent := Send(s, sel, aux, channel, expectsReply, w);
    if expectsReply && Succeeds(CallPacket(NextID(s), sel, aux, channel, expectsReply), w)
    then Poll(ReceiveTimes(sent, d, n), Id(NextID(s)))
    else (sent, None)
  }

  lemma {:induction false} WaitingKeepsChannels(s: State, d: Decoder, n: nat)
    ensures ReceiveTimes(s, d, n).channels == s.channels
    decreases n
  {
    hide Receive;
    if n > 0 {
      var before := ReceiveTimes(s, d, n - 1);
      WaitingKeepsChannels(s, d, n - 1);
      ReceiveKeepsChannels(before, d);
      assert ReceiveTimes(s, d, n) == Receive(before, d).0;
      hide *;
    }
  }

  lemma CallKeepsChannels(s: State, d: Decoder, sel: seq<byte>, aux: seq<byte>, channel: u32, expectsReply: bool,
                          w: Write, n: nat)
    ensures Call(s, d, sel, aux, channel, expectsReply, w, n).0.channels == s.channels
  {
    hide CallPacket, ReceiveTimes;
    WaitingKeepsChannels(Send(s, sel, aux, channel, expectsReply, w), d, n);
  }

  /** The archive of a selector is the same whenever it is made. */
  function SelectorArchive(selector: string): ObjectArchive {
    ObjectArchive([Str("$null"), Str(selector)], 1)
  }

  function SelectorBlob(p: Plist, selector: string): seq<byte> { p.marshal(SelectorArchive(selector)) }

  lemma SelectorTable(selector: string, t: seq<Value>)
    requires TableOf(Str(selector), t)
    ensures t == [Str("$null"), Str(selector)]
  {}

  // ---------------------------------------------------------------------------------------------
  // Channels
  // ---------------------------------------------------------------------------------------------

  const REQUEST_CHANNEL: string := "_requestChannelWithCode:identifier:"

  /** The arguments of a channel request: the code as an int32, the name as an archived string. */
  function ChannelArguments(p: Plist, code: u32, name: string): seq<byte> {
    Framed(Encoded(Int32(ToI32(code))) + Encoded(Object(SelectorBlob(p, name))))
  }

  /** openedChannels after one MakeChannel. */
  function ChannelsAfter(m: map<string, u32>, name: string, ok: bool): map<string, u32> {
    if ok && name !in m then m[name := (|m| + 1) % TWO32] else m
  }

  /** Names one-to-one onto 1..n. */
  ghost predicate Numbered(m: map<string, u32>) {
    InRange(m) && OneToOne(m) && forall i {:trigger Uses(m, i)} :: 1 <= i <= |m| ==> Uses(m, i)
  }

  ghost predicate InRange(m: map<string, u32>) { forall a :: a in m ==> 1 <= m[a] <= |m| }

  ghost predicate OneToOne(m: map<string, u32>) { forall a, b :: a in m && b in m && m[a] == m[b] ==> a == b }

  ghost predicate Uses(m: map<string, u32>, i: int) { exists a :: a in m && m[a] == i }

  function ChannelsAfterAll(m: map<string, u32>, calls: seq<(string, bool)>): map<string, u32> {
    if calls == [] then m
    else
      var last := calls[|calls|-1];
      ChannelsAfter(ChannelsAfterAll(m, calls[..|calls|-1]), last.0, last.1)
  }

  lemma NumberedStep(m: map<string, u32>, name: string, ok: bool)
    requires Numbered(m) && |m| < TWO32 - 1
    ensures Numbered(ChannelsAfter(m, name, ok))
    ensures |ChannelsAfter(m, name, ok)| <= |m| + 1
    ensures forall a :: a in m ==> a in ChannelsAfter(m, name, ok) && ChannelsAfter(m, name, ok)[a] == m[a]
  {
    if ok && name !in m {
      OneMore(m, name, |m| + 1);
      assert ChannelsAfter(m, name, ok) == m[name := |m| + 1];
      hide Numbered, ChannelsAfter;
      NumberedMore(m, name);
    }
  }

  lemma ChannelNames(m: map<string, u32>, name: string, ok: bool)
    ensures forall a :: a in ChannelsAfter(m, name, ok) <==> a in m || (a == name && ok)
  {}

  lemma NumberedMore(m: map<string, u32>, name: string)
    requires Numbered(m) && name !in m && |m| < TWO32 - 1 && |m[name := |m| + 1]| == |m| + 1
    ensures Numbered(m[name := |m| + 1])
  {
    hide Uses;
    var m' := m[name := |m| + 1];
    assert InRange(m') && OneToOne(m');
    forall i | 1 <= i <= |m'| ensures Uses(m', i) { UsesStep(m, name, i); }
  }

  lemma NumberedNone()
    ensures Numbered(map[])
  {}

  lemma OneMore<V>(m: map<string, V>, name: string, v: V)
    requires name !in m
    ensures |m[name := v]| == |m| + 1
  {
    assert m[name := v].Keys == m.Keys + {name} && |m[name := v]| == |m[name := v].Keys|;
  }

  lemma UsesStep(m: map<string, u32>, name: string, i: int)
    requires name !in m && |m| < TWO32 - 1 && (1 <= i <= |m| ==> Uses(m, i)) && 1 <= i <= |m| + 1
    ensures Uses(m[name := |m| + 1], i)
  {
    var m' := m[name := |m| + 1];
    if i <= |m| {
      var a :| a in m && m[a] == i;
      assert a in m' && m'[a] == i;
    } else {
      assert name in m' && m'[name] == i;
    }
  }

  /**
   Over any sequence of MakeChannel calls, succeeding or failing, the names stay numbered 1 to n without
   gap or repetition, no name ever changes its number, and those are the names of the calls that succeeded.
   */
  lemma {:induction false} ChannelsNumbered(calls: seq<(string, bool)>, i: nat)
    requires i <= |calls| < TWO32
    ensures Numbered(ChannelsAfterAll(map[], calls)) && |ChannelsAfterAll(map[], calls)| <= |calls|
    ensures var early, late := ChannelsAfterAll(map[], calls[..i]), ChannelsAfterAll(map[], calls);
            forall a :: a in early ==> a in late && late[a] == early[a]
    ensures forall a :: a in ChannelsAfterAll(map[], calls) <==> (a, true) in calls
    decreases |calls|
  {
    hide Numbered, ChannelsAfter;
    if calls == [] { NumberedNone(); }
    if calls != [] {
      var n := |calls| - 1;
      ChannelsNumbered(calls[..n], if i <= n then i else n);
      NumberedStep(ChannelsAfterAll(map[], calls[..n]), calls[n].0, calls[n].1);
      ChannelNames(ChannelsAfterAll(map[], calls[..n]), calls[n].0, calls[n].1);
      assert calls == calls[..n] + [calls[n]];
      if i <= n { assert calls[..n][..i] == calls[..i]; } else { assert calls[..i] == calls; }
    } else {
      assert calls[..i] == calls;
    }
  }

  // ---------------------------------------------------------------------------------------------
  // The client object
  // ---------------------------------------------------------------------------------------------

  class DtxMessageClient {
    var msgID: u32
    var openedChannels: map<string, u32>
    var resultMap: map<Key, DTXMessageResult>
    var toReply: multiset<Header>
    var incoming: seq<byte>
    var outgoing: seq<byte>
    var callbackMap: set<string>
    var called: seq<(string, DTXMessageResult)>

    ghost function View(): State
      reads this
    {
      State(msgID, openedChannels, resultMap, toReply, incoming, outgoing, callbackMap, called)
    }

    constructor (stream: seq<byte>)
      ensures View() == State(0, map[], map[], multiset{}, stream, [],
                              {"_Golang-iDevice_Unregistered", "_Golang-iDevice_Over"}, [])
    {
      msgID, openedChannels, resultMap, toReply := 0, map[], map[], multiset{};
      incoming, outgoing, callbackMap, called := stream, [], {UNREGISTERED, OVER}, [];
    }

    /** The connection: exactly n bytes, or an error at the end of the stream. */
    method Read(n: nat) returns (data: Option<seq<byte>>)
      modifies this`incoming
      ensures data.None? <==> |old(incoming)| < n
      ensures data.None? ==> incoming == []
      ensures data.Some? ==> data.value == old(incoming)[..n] && incoming == old(incoming)[n..]
    {
      if |incoming| < n {
        incoming := [];
        return None;
      }
      data := Some(incoming[..n]);
      incoming := incoming[n..];
    }

    method WriteAll(raw: seq<byte>, w: Write) returns (ok: bool)
      modifies this`outgoing
      ensures outgoing == old(outgoing) + Written(raw, w)
      ensures ok <==> Succeeds(raw, w)
    {
      outgoing := outgoing + Written(raw, w);
      ok := Succeeds(raw, w);
    }

    /** The packet of a call, whose lengths are computed on 32 and 64 bits. */
    method BuildCall(id: u32, sel: seq<byte>, aux: seq<byte>, channelCode: u32, expectsReply: bool)
        returns (raw: seq<byte>)
      ensures raw == CallPacket(id, sel, aux, channelCode, expectsReply)
    {
      hide HeaderBytes, PayloadBytes;
      var flag := if expectsReply then 0x1000 else 0;
      var payload := Payload(0x2 + flag, |aux| % TWO32, (|aux| + |sel|) % TWO64);
      LengthsAgree(|aux| + |sel|);
      var header := Header(MAGIC, HEADER_SIZE, 0, 1, (PAYLOAD_SIZE + payload.totalLength % TWO32) % TWO32, id, 0,
                           channelCode, if expectsReply then 1 else 0);
      raw := PackCall(header, payload, aux, sel);
    }

    method SendDTXMessage(p: Plist, selector: string, aux: seq<byte>, channelCode: u32, expectsReply: bool, w: Write)
        returns (id: u32, ok: bool)
      modifies this
      ensures View() == Send(old(View()), SelectorBlob(p, selector), aux, channelCode, expectsReply, w)
      ensures id == msgID
      ensures ok <==> Succeeds(CallPacket(id, SelectorBlob(p, selector), aux, channelCode, expectsReply), w)
    {
      hide CallPacket, TableOf;
      var sel, t := Marshal(p, Str(selector));
      SelectorTable(selector, t);
      msgID := (msgID + 1) % TWO32;
      id := msgID;
      var raw := BuildCall(id, sel.value, aux, channelCode, expectsReply);
      ok := WriteAll(raw, w);
    }

    /** One message: fragments are collected until the last, then the payload is taken apart. */
    method ReceiveDTXMessage(d: Decoder) returns (r: Receipt)
      modifies this
      ensures (View(), r) == Receive(old(View()), d)
    {
      hide HeaderOf, DecodePayload;
      var buf: seq<byte> := [];
      var need: Option<Header> := None;
      var header: Header;
      while true
        invariant openedChannels == old(openedChannels) && resultMap == old(resultMap)
        invariant toReply == old(toReply) && outgoing == old(outgoing)
        invariant callbackMap == old(callbackMap) && called == old(called)
        invariant Assemble(msgID, incoming, buf, need) == Assemble(old(msgID), old(incoming), [], None)
        decreases |incoming|
      {
        var bytes := Read(HEADER_SIZE);
        if bytes.None? { return Broke(EndOfStream); }
        header := HeaderOf(bytes.value);
        if header.expectsReply == 1 { need := Some(header); }
        if header.magic != MAGIC { return Broke(BadMagic); }
        if header.conversationIndex == 1 {
          if header.identifier != msgID { return Broke(BadIdentifier); }
        } else if header.conversationIndex == 0 {
          if header.identifier > msgID { msgID := header.identifier; }
        } else {
          return Broke(BadConversation);
        }
        if header.fragmentId == 0 && header.fragmentCount > 1 { continue; }
        var data := Read(header.length);
        if data.None? { return Broke(EndOfStream); }
        ghost var sofar := buf;
        buf := buf + data.value;
        if header.fragmentId == (header.fragmentCount - 1) % TWO16 {
          assert Assemble(old(msgID), old(incoming), [], None) == Assembled(header, need, buf, msgID, incoming);
          break;
        }
      }
      r := Finish(d, header, need, buf);
    }

    method Finish(d: Decoder, header: Header, need: Option<Header>, raw: seq<byte>) returns (r: Receipt)
      modifies this`resultMap, this`toReply, this`called
      ensures (View(), r) == Deliver(old(View()), header, need, DecodePayload(d, raw))
    {
      match DecodePayload(d, raw) {
        case Refused(e) => return Broke(e);
        case Crash => return Crashed;
        case Message(result) =>
          var sObj := if result.obj.Str? then result.obj.s else "";
          called := called + [(if sObj in callbackMap then sObj else UNREGISTERED, result)];
          if need.Some? {
            toReply := toReply + multiset{need.value};
            return Asked(need.value, result);
          }
          var sk := Id(header.identifier);
          if result.obj == Str(CAPABILITIES) { sk := Published; }
          resultMap := resultMap[sk := result];
          return Stored(header, sk, result);
      }
    }

    method RegisterCallback(obj: string)
      modifies this`callbackMap
      ensures callbackMap == old(callbackMap) + {obj}
    {
      callbackMap := callbackMap + {obj};
    }

    /** One turn of the loop of GetResult: a poll under the lock. */
    method GetResult(key: Key) returns (r: Option<DTXMessageResult>)
      modifies this`resultMap
      ensures (View(), r) == Poll(old(View()), key)
    {
      if key in resultMap {
        r := Some(resultMap[key]);
        resultMap := resultMap - {key};
      } else {
        r := None;
      }
    }

    /** The reply goroutine takes one queued request. */
    method SendReply(h: Header, w: Write) returns (ok: bool)
      requires h in toReply
      modifies this
      ensures View() == Answer(old(View()), h, w) && (ok <==> Succeeds(ReplyPacket(h), w))
    {
      toReply := toReply - multiset{h};
      var header := PackHeader(ReplyHeader(h));
      var payload := PackPayload(Payload(0, 0, 0));
      ok := WriteAll(header + payload, w);
    }

    /** The receive loop, while a caller waits. */
    method LetPass(d: Decoder, rounds: nat)
      modifies this
      ensures View() == ReceiveTimes(old(View()), d, rounds)
    {
      hide Receive;
      for i := 0 to rounds
        invariant View() == ReceiveTimes(old(View()), d, i)
      {
        var _ := ReceiveDTXMessage(d);
      }
    }

    /** The receive loop on its own, until an error ends it or there have been n messages. */
    method StartReceive(d: Decoder, n: nat) returns (ended: bool)
      modifies this
      ensures (View(), ended) == ReceiveLoop(old(View()), d, n)
    {
      hide Receive;
      ended := false;
      for i := 0 to n
        invariant (View(), ended) == ReceiveLoop(old(View()), d, i)
      {
        if !ended {
          var r := ReceiveDTXMessage(d);
          ended := Ends(r);
        }
      }
    }

    /** What MakeChannel and Invoke share: the call, the wait if a reply is expected, and the poll that ends it. */
    method SendAndWait(p: Plist, d: Decoder, selector: string, aux: seq<byte>, channelCode: u32, expectsReply: bool,
                       w: Write, rounds: nat)
        returns (result: Option<DTXMessageResult>)
      modifies this
      ensures (View(), result)
           == Call(old(View()), d, SelectorBlob(p, selector), aux, channelCode, expectsReply, w, rounds)
    {
      hide ReceiveTimes, CallPacket, SelectorBlob;
      var id, ok := SendDTXMessage(p, selector, aux, channelCode, expectsReply, w);
      if !ok || !expectsReply { return None; }
      LetPass(d, rounds);
      result := GetResult(Id(id));
    }

    method BuildArguments(p: Plist, code: u32, channel: string) returns (aux: seq<byte>)
      ensures aux == ChannelArguments(p, code, channel)
    {
      hide Encoded, Framed, ToI32;
      var args := new AuxBuffer();
      args.AppendInt32(ToI32(code));
      var _, t := args.AppendObject(p, Str(channel));
      SelectorTable(channel, t);
      aux := args.Bytes();
      assert [] + Encoded(Int32(ToI32(code))) == Encoded(Int32(ToI32(code)));
    }

    /**
     MakeChannel: the request, `rounds` messages the receive loop handles while GetResult waits, and the poll
     that ends the waiting. A channel already open costs nothing at all.
     */
    method MakeChannel(p: Plist, d: Decoder, channel: string, w: Write, rounds: nat) returns (id: Option<u32>)
      modifies this
      ensures openedChannels == ChannelsAfter(old(openedChannels), channel, id.Some?)
      ensures id.Some? ==> id.value == openedChannels[channel]
      ensures channel in old(openedChannels) ==> View() == old(View()) && id.Some?
      ensures channel !in old(openedChannels) ==>
                var code: u32 := (|old(openedChannels)| + 1) % TWO32;
                var (end, reply) := Call(old(View()), d, SelectorBlob(p, REQUEST_CHANNEL),
                                         ChannelArguments(p, code, channel), 0, true, w, rounds);
                (id.Some? <==> reply.Some?) && View() == end.(channels := openedChannels)
    {
      hide Call, ChannelArguments, SelectorBlob;
      if channel in openedChannels { return Some(openedChannels[channel]); }
      var code: u32 := (|openedChannels| + 1) % TWO32;
      var aux := BuildArguments(p, code, channel);
      CallKeepsChannels(View(), d, SelectorBlob(p, REQUEST_CHANNEL), aux, 0, true, w, rounds);
      var reply := SendAndWait(p, d, REQUEST_CHANNEL, aux, 0, true, w, rounds);
      if reply.None? { return None; }
      openedChannels := openedChannels[channel := code];
      id := Some(code);
    }

    /** Invoke of instruments.go: send, and take the result filed under the identifier sent. */
    method Invoke(p: Plist, d: Decoder, selector: string, args: seq<byte>, channelCode: u32, expectsReply: bool,
                  w: Write, rounds: nat)
        returns (result: Option<DTXMessageResult>)
      modifies this
      ensures (View(), result)
           == Call(old(View()), d, SelectorBlob(p, selector), args, channelCode, expectsReply, w, rounds)
    {
      result := SendAndWait(p, d, selector, args, channelCode, expectsReply, w, rounds);
    }
  }

  lemma LengthsAgree(n: nat)
    ensures (PAYLOAD_SIZE + n % TWO64 % TWO32) % TWO32 == (PAYLOAD_SIZE + n) % TWO32
  {
    assert n % TWO64 % TWO32 == n % TWO32 by {
      var q, r := n / TWO64, n % TWO64;
      assert n == q * TWO32 * TWO32 + r;
      assert n % TWO32 == r % TWO32 by { ModShift(r, q * TWO32); }
    }
    var q, r := n / TWO32, n % TWO32;
    assert PAYLOAD_SIZE + n == (PAYLOAD_SIZE + r) + q * TWO32;
    ModShift(PAYLOAD_SIZE + r, q);
  }

  lemma {:induction false} ModShift(r: nat, q: nat)
    ensures (r + q * TWO32) % TWO32 == r % TWO32
    decreases q
  {
    if q > 0 {
      ModShift(r, q - 1);
      assert r + q * TWO32 == (r + (q - 1) * TWO32) + TWO32;
    }
  }
}
