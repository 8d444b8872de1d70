/** What holds over whole runs of the DTX connection: any interleaving of its atomic steps. */
module DtxRuns {
  import opened Bytes
  import opened GoValues
  import opened Unarchiver
  import opened AuxBuffers
  import opened DtxPackets
  import opened DtxMessages
  import opened DtxReading
  import opened DtxClient

  datatype Event =
    | Sending(sel: seq<byte>, aux: seq<byte>, channel: u32, expectsReply: bool, w: Write)
    | Receiving
    | Polling(key: Key)
    | Answering(request: Header, aw: Write)
    | Registering(name: string)

  function Apply(s: State, e: Event, d: Decoder): State {
    match e
    case Sending(sel, aux, channel, expectsReply, w) => Send(s, sel, aux, channel, expectsReply, w)
    case Receiving => Receive(s, d).0
    case Polling(key) => Poll(s, key).0
    case Answering(h, w) => if h in s.toReply then Answer(s, h, w) else s
    case Registering(name) => s.(callbacks := s.callbacks + {name})
  }

  function Run(s: State, es: seq<Event>, d: Decoder): State {
    if es == [] then s else Apply(Run(s, es[..|es|-1], d), es[|es|-1], d)
  }

  // ---------------------------------------------------------------------------------------------
  // Identifiers
  // ---------------------------------------------------------------------------------------------

  /** The identifiers of the headers one receive accepts, even if it breaks off later. */
  ghost function AcceptedIn(msgID: u32, input: seq<byte>): set<u32> {
    Identifiers(HeadersRead(msgID, input))
  }

  /** The identifiers a step sends or accepts. */
  ghost function Seen(s: State, e: Event): set<u32> {
    match e
    case Sending(_, _, _, _, _) => {NextID(s)}
    case Receiving => AcceptedIn(s.msgID, s.incoming)
    case _ => {}
  }

  ghost function SeenAll(s: State, es: seq<Event>, d: Decoder): set<u32> {
    if es == [] then {} else SeenAll(s, es[..|es|-1], d) + Seen(Run(s, es[..|es|-1], d), es[|es|-1])
  }

  /** No send of the run finds the counter at its last value. */
  ghost predicate NoWrap(s: State, es: seq<Event>, d: Decoder) {
    es == [] || (NoWrap(s, es[..|es|-1], d)
                 && (es[|es|-1].Sending? ==> Run(s, es[..|es|-1], d).msgID < TWO32 - 1))
  }

  function Identifiers(hs: seq<Header>): set<u32> { set h | h in hs :: h.identifier }

  lemma IdentifiersFront(h: Header, hs: seq<Header>)
    ensures Identifiers([h] + hs) == {h.identifier} + Identifiers(hs)
  {}

  lemma NoIdentifiers()
    ensures Identifiers([]) == {}
  {}

  lemma {:induction false} AcceptedBounds(msgID: u32, input: seq<byte>, buf: seq<byte>, need: Option<Header>)
    ensures var end := Assemble(msgID, input, buf, need).msgID;
            msgID <= end && (forall id :: id in AcceptedIn(msgID, input) ==> id <= end)
            && (end == msgID || end in AcceptedIn(msgID, input))
    decreases |input|
  {
    hide HeaderOf, Identifiers;
    NoIdentifiers();
    if |input| >= HEADER_SIZE {
      var h, rest := HeaderOf(input[..HEADER_SIZE]), input[HEADER_SIZE..];
      if Accepts(msgID, h) {
        IdentifiersFront(h, []);
        if Announces(h) {
          IdentifiersFront(h, HeadersRead(Bumped(msgID, h), rest));
          AcceptedBounds(Bumped(msgID, h), rest, buf, Asking(need, h));
          assert AcceptedIn(msgID, input) == {h.identifier} + AcceptedIn(Bumped(msgID, h), rest);
        } else if |rest| >= h.length && !Closes(h) {
          IdentifiersFront(h, HeadersRead(Bumped(msgID, h), rest[h.length..]));
          AcceptedBounds(Bumped(msgID, h), rest[h.length..], buf + rest[..h.length], Asking(need, h));
          assert AcceptedIn(msgID, input) == {h.identifier} + AcceptedIn(Bumped(msgID, h), rest[h.length..]);
        }
      }
    }
  }

  lemma ReceiveID(s: State, d: Decoder)
    ensures Receive(s, d).0.msgID == Assemble(s.msgID, s.incoming, [], None).msgID
  {
    hide Assemble, DecodePayload;
  }

  lemma StepBounds(s: State, e: Event, d: Decoder)
    requires e.Sending? ==> s.msgID < TWO32 - 1
    ensures var end := Apply(s, e, d).msgID;
            s.msgID <= end && (forall id :: id in Seen(s, e) ==> id <= end) && (end == s.msgID || end in Seen(s, e))
  {
    if e.Receiving? {
      hide Assemble, AcceptedIn, Receive;
      ReceiveID(s, d);
      AcceptedBounds(s.msgID, s.incoming, [], None);
    }
  }

  /** Until the counter wraps it never goes back, bounds every identifier seen, and is itself one of them. */
  lemma {:induction false} CounterBounds(s: State, es: seq<Event>, d: Decoder)
    requires NoWrap(s, es, d)
    ensures var end := Run(s, es, d).msgID;
            s.msgID <= end && (forall id :: id in SeenAll(s, es, d) ==> id <= end)
            && (end == s.msgID || end in SeenAll(s, es, d))
    decreases |es|
  {
    if es != [] {
      hide Apply, Seen;
      CounterBounds(s, es[..|es|-1], d);
      StepBounds(Run(s, es[..|es|-1], d), es[|es|-1], d);
    }
  }

  /**
   After a run in which the counter has not wrapped, the next send gets an identifier above everything
   sent or accepted so far, if and only if the counter does not stand at its last value.
   */
  lemma FreshIdentifier(s: State, es: seq<Event>, d: Decoder)
    requires NoWrap(s, es, d)
    ensures var next := NextID(Run(s, es, d));
            (s.msgID < next && forall id :: id in SeenAll(s, es, d) ==> id < next) <==> Run(s, es, d).msgID < TWO32 - 1
  {
    hide Run, SeenAll, NoWrap;
    CounterBounds(s, es, d);
  }

  // ---------------------------------------------------------------------------------------------
  // Results: nothing is lost, nothing is delivered twice
  // ---------------------------------------------------------------------------------------------

  type Filed = (Key, DTXMessageResult)

  function InMap(m: map<Key, DTXMessageResult>): multiset<Filed> { multiset(m.Items) }

  /** What a step files, hands to a waiter, and overwrites. */
  function StoredBy(s: State, e: Event, d: Decoder): multiset<Filed> {
    if e.Receiving? && Receive(s, d).1.Stored?
    then multiset{(Receive(s, d).1.key, Receive(s, d).1.result)} else multiset{}
  }

  function DeliveredBy(s: State, e: Event): multiset<Filed> {
    if e.Polling? && e.key in s.results then multiset{(e.key, s.results[e.key])} else multiset{}
  }

  function DisplacedBy(s: State, e: Event, d: Decoder): multiset<Filed> {
    if e.Receiving? && Receive(s, d).1.Stored? && Receive(s, d).1.key in s.results
    then multiset{(Receive(s, d).1.key, s.results[Receive(s, d).1.key])} else multiset{}
  }

  function StoredAll(s: State, es: seq<Event>, d: Decoder): multiset<Filed> {
    if es == [] then multiset{} else StoredAll(s, es[..|es|-1], d) + StoredBy(Run(s, es[..|es|-1], d), es[|es|-1], d)
  }

  function DeliveredAll(s: State, es: seq<Event>, d: Decoder): multiset<Filed> {
    if es == [] then multiset{} else DeliveredAll(s, es[..|es|-1], d) + DeliveredBy(Run(s, es[..|es|-1], d), es[|es|-1])
  }

  function DisplacedAll(s: State, es: seq<Event>, d: Decoder): multiset<Filed> {
    if es == [] then multiset{}
    else DisplacedAll(s, es[..|es|-1], d) + DisplacedBy(Run(s, es[..|es|-1], d), es[|es|-1], d)
  }

  lemma PutItem(m: map<Key, DTXMessageResult>, k: Key, r: DTXMessageResult)
    ensures InMap(m[k := r]) + (if k in m then multiset{(k, m[k])} else multiset{}) == InMap(m) + multiset{(k, r)}
  {
    hide InMap;
    TakeItem(m[k := r], k);
    if k in m {
      TakeItem(m, k);
      assert m[k := r] - {k} == m - {k};
    } else {
      assert m[k := r] - {k} == m;
    }
  }

  /** The items of a map, given by its keys. */
  lemma ItemsOf(m: map<Key, DTXMessageResult>, items: set<Filed>)
    requires forall x :: x in items <==> x.0 in m && m[x.0] == x.1
    ensures m.Items == items
  {
    forall x ensures x in m.Items <==> x in items {
      if x in m.Items { assert x.0 in m && m[x.0] == x.1; }
    }
  }

  lemma TakeItem(m: map<Key, DTXMessageResult>, k: Key)
    requires k in m
    ensures InMap(m) == InMap(m - {k}) + multiset{(k, m[k])}
  {
    ItemsOf(m, (m - {k}).Items + {(k, m[k])});
  }

  /** The map of results after one step. */
  lemma ReceiveResults(s: State, d: Decoder)
    ensures var (s', r) := Receive(s, d);
            s'.results == if r.Stored? then s.results[r.key := r.result] else s.results
    ensures var (s', r) := Receive(s, d);
            s'.toReply == if r.Asked? then s.toReply + multiset{r.request} else s.toReply
    ensures var (s', r) := Receive(s, d);
            r.Stored? ==> r.key == KeyFor(r.last, r.result)
  {
    hide Assemble, DecodePayload;
  }

  lemma DeliveryStep(s: State, e: Event, d: Decoder)
    ensures InMap(s.results) + StoredBy(s, e, d)
         == DeliveredBy(s, e) + DisplacedBy(s, e, d) + InMap(Apply(s, e, d).results)
  {
    hide Receive, InMap;
    if e.Receiving? {
      DeliveryReceive(s, d);
    } else if e.Polling? && e.key in s.results {
      TakeItem(s.results, e.key);
    }
  }

  lemma DeliveryReceive(s: State, d: Decoder)
    ensures InMap(s.results) + StoredBy(s, Receiving, d)
            == DisplacedBy(s, Receiving, d) + InMap(Receive(s, d).0.results)
  {
    hide Receive, InMap;
    ReceiveResults(s, d);
    var r := Receive(s, d).1;
    if r.Stored? { PutItem(s.results, r.key, r.result); }
  }

  lemma Balance<T>(start: multiset<T>, stored: multiset<T>, out: multiset<T>, mid: multiset<T>,
                   more: multiset<T>, moreOut: multiset<T>, end: multiset<T>)
    requires start + stored == out + mid && mid + more == moreOut + end
    ensures start + (stored + more) == (out + moreOut) + end
  {
    assert start + (stored + more) == (start + stored) + more == out + (mid + more);
    assert out + (moreOut + end) == (out + moreOut) + end;
  }

  lemma Regroup<T>(a: multiset<T>, b: multiset<T>, c: multiset<T>, e: multiset<T>)
    ensures (a + b) + (c + e) == (a + c) + (b + e)
  {}

  /**
   Every result filed is still filed, has been handed to exactly one waiter, or has been overwritten by a
   later one under the same key, in any interleaving.
   */
  lemma {:induction false} DeliveryConservation(s: State, es: seq<Event>, d: Decoder)
    ensures InMap(s.results) + StoredAll(s, es, d)
         == DeliveredAll(s, es, d) + DisplacedAll(s, es, d) + InMap(Run(s, es, d).results)
    decreases |es|
  {
    if es != [] {
      hide Apply, StoredBy, DeliveredBy, DisplacedBy, InMap;
      var before, e, now := es[..|es|-1], es[|es|-1], Run(s, es[..|es|-1], d);
      DeliveryConservation(s, before, d);
      DeliveryStep(now, e, d);
      var out := DeliveredAll(s, before, d) + DisplacedAll(s, before, d);
      var moreOut := DeliveredBy(now, e) + DisplacedBy(now, e, d);
      Balance(InMap(s.results), StoredAll(s, before, d), out, InMap(now.results), StoredBy(now, e, d), moreOut,
              InMap(Apply(now, e, d).results));
      Regroup(DeliveredAll(s, before, d), DisplacedAll(s, before, d), DeliveredBy(now, e), DisplacedBy(now, e, d));
    }
  }

  // ---------------------------------------------------------------------------------------------
  // Replies
  // ---------------------------------------------------------------------------------------------

  /** The message a step decodes asked for a reply in some header: the last such header is to be answered. */
  function AskedBy(s: State, e: Event, d: Decoder): multiset<Header> {
    if DecodedBy(s, e, d).None? then multiset{}
    else
      match LastAsked(HeadersRead(s.msgID, s.incoming))
      case None => multiset{}
      case Some(h) => multiset{h}
  }

  lemma AskedReceipt(s: State, d: Decoder)
    ensures var r := Receive(s, d).1;
            AskedBy(s, Receiving, d) == if r.Asked? then multiset{r.request} else multiset{}
  {
    AssembleAsks(s.msgID, s.incoming, [], None);
    hide Assemble, HeadersRead, LastAsked, DecodePayload;
  }

  /** The next thing on the stream is this message, its headers accepted and its payload decoded. */
  predicate Comes(s: State, d: Decoder, m: Sent, rest: seq<byte>) {
    s.incoming == Wire(m) + rest && WellFormed(m) && AcceptsAll(s.msgID, Headers(m))
    && DecodePayload(d, PayloadSent(m)).Message?
  }

  /**
   A message that arrives whole or in fragments, its headers accepted and its payload decoded, is queued for a reply if
   and only if one of its headers asks for one, and then the last such header is what is answered.
   */
  lemma AskedIff(s: State, d: Decoder, m: Sent, rest: seq<byte>)
    ensures var (s', r) := Receive(s, d);
            Comes(s, d, m, rest) ==>
            s'.incoming == rest && (r.Stored? || r.Asked?)
            && (r.Asked? <==> exists i :: 0 <= i < |Headers(m)| && Headers(m)[i].expectsReply == 1)
            && (r.Asked? ==> LastAsking(Some(r.request), Headers(m)) && s'.toReply == s.toReply + multiset{r.request})
            && (r.Stored? ==> s'.toReply == s.toReply)
  {
    var hs := Headers(m);
    AskingLast(None, hs);
    LastAskedIs(hs);
    if Comes(s, d, m, rest) { MessageReceived(s, d, m, rest); }
    hide Comes, Receive, DecodePayload, Wire, WellFormed, AcceptsAll, AskingAll, Headers, LastAsked;
    if LastAsked(hs).Some? {
      var i :| 0 <= i < |hs| && AskedAt(hs, i, LastAsked(hs).value);
      assert hs[i].expectsReply == 1;
    }
  }

  lemma MessageReceived(s: State, d: Decoder, m: Sent, rest: seq<byte>)
    requires Comes(s, d, m, rest)
    ensures var (s', r) := Receive(s, d);
            s'.incoming == rest
            && match AskingAll(None, Headers(m))
               case None => r.Stored? && s'.toReply == s.toReply
               case Some(h) => r.Asked? && r.request == h && s'.toReply == s.toReply + multiset{h}
  {
    Synchronised(s.msgID, m, rest);
    hide Assemble, DecodePayload, Wire, AskingAll, BumpedAll, Headers, WellFormed, CallbackFor, KeyFor;
  }

  function AnsweredBy(s: State, e: Event): multiset<Header> {
    if e.Answering? && e.request in s.toReply then multiset{e.request} else multiset{}
  }

  function AskedAll(s: State, es: seq<Event>, d: Decoder): multiset<Header> {
    if es == [] then multiset{} else AskedAll(s, es[..|es|-1], d) + AskedBy(Run(s, es[..|es|-1], d), es[|es|-1], d)
  }

  function AnsweredAll(s: State, es: seq<Event>, d: Decoder): multiset<Header> {
    if es == [] then multiset{} else AnsweredAll(s, es[..|es|-1], d) + AnsweredBy(Run(s, es[..|es|-1], d), es[|es|-1])
  }

  lemma ReplyStep(s: State, e: Event, d: Decoder)
    ensures s.toReply + AskedBy(s, e, d) == AnsweredBy(s, e) + Apply(s, e, d).toReply
  {
    hide Receive, HeadersRead;
    if e.Receiving? {
      ReceiveResults(s, d);
      AskedReceipt(s, d);
    }
  }

  /** Every accepted message that asked for a reply has been answered once or is still waiting for its answer. */
  lemma {:induction false} ReplyConservation(s: State, es: seq<Event>, d: Decoder)
    ensures s.toReply + AskedAll(s, es, d) == AnsweredAll(s, es, d) + Run(s, es, d).toReply
    decreases |es|
  {
    if es != [] {
      hide Apply, AskedBy, AnsweredBy;
      var before, e, now := es[..|es|-1], es[|es|-1], Run(s, es[..|es|-1], d);
      ReplyConservation(s, before, d);
      ReplyStep(now, e, d);
      Balance(s.toReply, AskedAll(s, before, d), AnsweredAll(s, before, d), now.toReply, AskedBy(now, e, d),
              AnsweredBy(now, e), Apply(now, e, d).toReply);
    }
  }

  /** What a step writes: a call, or the answer to a request, as far as the write gets. */
  datatype Wrote = WroteCall(packet: seq<byte>, cw: Write) | WroteReply(request: Header, rw: Write)

  function OnWire(p: Wrote): seq<byte> {
    match p
    case WroteCall(packet, w) => Written(packet, w)
    case WroteReply(h, w) => Written(ReplyPacket(h), w)
  }

  function OnWireAll(ps: seq<Wrote>): seq<byte> {
    if ps == [] then [] else OnWireAll(ps[..|ps|-1]) + OnWire(ps[|ps|-1])
  }

  /** The requests whose answers reached the wire whole, or not whole. */
  function Answered(ps: seq<Wrote>, whole: bool): multiset<Header> {
    if ps == [] then multiset{}
    else
      var last := ps[|ps|-1];
      Answered(ps[..|ps|-1], whole)
      + if last.WroteReply? && Succeeds(ReplyPacket(last.request), last.rw) == whole then multiset{last.request}
        else multiset{}
  }

  function WrittenBy(s: State, e: Event): seq<Wrote> {
    match e
    case Sending(sel, aux, channel, expectsReply, w) =>
      [WroteCall(CallPacket(NextID(s), sel, aux, channel, expectsReply), w)]
    case Answering(h, w) => if h in s.toReply then [WroteReply(h, w)] else []
    case _ => []
  }

  function WrittenAll(s: State, es: seq<Event>, d: Decoder): seq<Wrote> {
    if es == [] then [] else WrittenAll(s, es[..|es|-1], d) + WrittenBy(Run(s, es[..|es|-1], d), es[|es|-1])
  }

  lemma OnWireMore(ps: seq<Wrote>, more: seq<Wrote>)
    requires |more| <= 1
    ensures OnWireAll(ps + more) == OnWireAll(ps) + if more == [] then [] else OnWire(more[0])
    ensures forall whole :: Answered(ps + more, whole) == Answered(ps, whole) + Answered(more, whole)
  {
    hide OnWire, ReplyPacket;
    if more == [] {
      assert ps + more == ps;
    } else {
      assert (ps + more)[..|ps|] == ps && more[..0] == [];
    }
  }

  lemma StepWrites(s: State, e: Event, d: Decoder)
    ensures var ps := WrittenBy(s, e);
            |ps| <= 1 && Apply(s, e, d).outgoing == s.outgoing + (if ps == [] then [] else OnWire(ps[0]))
            && Answered(ps, true) + Answered(ps, false) == AnsweredBy(s, e)
  {
    hide Receive, CallPacket, ReplyPacket, Answered, OnWire;
    if e.Receiving? { ReceiveKeepsChannels(s, d); }
    StepAnswers(s, e);
    StepOutgoing(s, e);
    hide WrittenBy, AnsweredBy;
  }

  lemma StepAnswers(s: State, e: Event)
    ensures Answered(WrittenBy(s, e), true) + Answered(WrittenBy(s, e), false) == AnsweredBy(s, e)
  {
    hide CallPacket, ReplyPacket, Written;
    var ps := WrittenBy(s, e);
    if ps != [] { assert ps[..0] == []; }
  }

  lemma StepOutgoing(s: State, e: Event)
    ensures var ps := WrittenBy(s, e);
            match e
            case Sending(sel, aux, channel, expectsReply, w) =>
              |ps| == 1 && Send(s, sel, aux, channel, expectsReply, w).outgoing == s.outgoing + OnWire(ps[0])
            case Answering(h, w) =>
              if h in s.toReply then |ps| == 1 && Answer(s, h, w).outgoing == s.outgoing + OnWire(ps[0]) else ps == []
            case _ => ps == []
  {
    hide CallPacket, ReplyPacket, Written;
  }

  /** In any run the stream holds the calls and answers of the run, in order, and nothing else. */
  lemma {:induction false} OutgoingRun(s: State, es: seq<Event>, d: Decoder)
    ensures Run(s, es, d).outgoing == s.outgoing + OnWireAll(WrittenAll(s, es, d))
    decreases |es|
  {
    if es == [] {
      assert s.outgoing + [] == s.outgoing;
    } else {
      hide Apply, WrittenBy, OnWire, OnWireAll;
      var before, e := es[..|es|-1], es[|es|-1];
      OutgoingRun(s, before, d);
      var ps, now := WrittenAll(s, before, d), Run(s, before, d);
      var more := WrittenBy(now, e);
      var bytes := if more == [] then [] else OnWire(more[0]);
      assert Run(s, es, d) == Apply(now, e, d) && WrittenAll(s, es, d) == ps + more;
      StepWrites(now, e, d);
      OnWireMore(ps, more);
      hide *;
      Associative(s.outgoing, OnWireAll(ps), bytes);
    }
  }

  lemma Associative(a: seq<byte>, b: seq<byte>, c: seq<byte>)
    ensures a + b + c == a + (b + c)
  {}

  lemma {:induction false} AnsweredRun(s: State, es: seq<Event>, d: Decoder)
    ensures Answered(WrittenAll(s, es, d), true) + Answered(WrittenAll(s, es, d), false) == AnsweredAll(s, es, d)
    decreases |es|
  {
    if es != [] {
      hide Apply, WrittenBy, AnsweredBy, Answered;
      var before, e := es[..|es|-1], es[|es|-1];
      AnsweredRun(s, before, d);
      var now := Run(s, before, d);
      StepWrites(now, e, d);
      AnsweredMore(WrittenAll(s, before, d), WrittenBy(now, e), AnsweredAll(s, before, d), AnsweredBy(now, e));
    }
  }

  lemma AnsweredMore(ps: seq<Wrote>, more: seq<Wrote>, a: multiset<Header>, b: multiset<Header>)
    requires |more| <= 1 && Answered(ps, true) + Answered(ps, false) == a
    requires Answered(more, true) + Answered(more, false) == b
    ensures Answered(ps + more, true) + Answered(ps + more, false) == a + b
  {
    OnWireMore(ps, more);
    hide Answered;
    Regroup(Answered(ps, true), Answered(ps, false), Answered(more, true), Answered(more, false));
    Regroup(Answered(ps, true), Answered(more, true), Answered(ps, false), Answered(more, false));
  }

  /**
   Replies on the stream: the messages accepted that asked for one have had it written whole, or broken off, once
   each, or are still waiting; and no other reply is written. When no write breaks off the middle part is empty.
   */
  lemma RepliesWritten(s: State, es: seq<Event>, d: Decoder)
    ensures var ps := WrittenAll(s, es, d);
            Run(s, es, d).outgoing == s.outgoing + OnWireAll(ps)
            && s.toReply + AskedAll(s, es, d) == Answered(ps, true) + Answered(ps, false) + Run(s, es, d).toReply
    ensures (forall i :: 0 <= i < |es| && es[i].Answering? ==> es[i].aw == Complete) ==>
              Answered(WrittenAll(s, es, d), false) == multiset{}
  {
    hide Run, WrittenAll, AskedAll, Answered, OnWireAll, AnsweredAll;
    OutgoingRun(s, es, d);
    AnsweredRun(s, es, d);
    ReplyConservation(s, es, d);
    if forall i :: 0 <= i < |es| && es[i].Answering? ==> es[i].aw == Complete { NoneBroken(s, es, d); }
  }

  lemma {:induction false} NoneBroken(s: State, es: seq<Event>, d: Decoder)
    requires forall i :: 0 <= i < |es| && es[i].Answering? ==> es[i].aw == Complete
    ensures Answered(WrittenAll(s, es, d), false) == multiset{}
    decreases |es|
  {
    if es != [] {
      var before, e := es[..|es|-1], es[|es|-1];
      NoneBroken(s, before, d);
      var now := Run(s, before, d);
      assert WrittenAll(s, es, d) == WrittenAll(s, before, d) + WrittenBy(now, e);
      hide Run, WrittenAll, WrittenBy, Answered;
      StepUnbroken(now, e);
      OnWireMore(WrittenAll(s, before, d), WrittenBy(now, e));
    }
  }

  lemma StepUnbroken(s: State, e: Event)
    requires e.Answering? ==> e.aw == Complete
    ensures |WrittenBy(s, e)| <= 1 && Answered(WrittenBy(s, e), false) == multiset{}
  {
    hide CallPacket, ReplyPacket;
    if WrittenBy(s, e) != [] { assert WrittenBy(s, e)[..0] == []; }
  }

  /** What a call puts on the wire, read back field by field and part by part. */
  lemma CallOnWire(s: State, sel: seq<byte>, aux: seq<byte>, channel: u32, expectsReply: bool)
    requires PAYLOAD_SIZE + |aux| + |sel| < TWO32
    ensures var s' := Send(s, sel, aux, channel, expectsReply, Complete);
            s.outgoing <= s'.outgoing && var sent := s'.outgoing[|s.outgoing|..];
            |sent| == HEADER_SIZE + PAYLOAD_SIZE + |aux| + |sel|
            && sent[HEADER_SIZE + PAYLOAD_SIZE..] == aux + sel
            && PayloadOf(sent[HEADER_SIZE..HEADER_SIZE + PAYLOAD_SIZE])
               == Payload(if expectsReply then 0x1002 else 2, |aux|, |aux| + |sel|)
            && var call := HeaderOf(sent[..HEADER_SIZE]);
            call.magic == 0x1F3D5B79 && call.cb == 32 && call.fragmentId == 0 && call.fragmentCount == 1
            && call.identifier == s'.msgID == (s.msgID + 1) % TWO32 && call.channelCode == channel
            && call.conversationIndex == 0 && call.expectsReply == (if expectsReply then 1 else 0)
            && 32 + call.length == |sent|
  {
    hide HeaderBytes, HeaderOf, PayloadBytes, PayloadOf;
    var packet, body := CallPacket(NextID(s), sel, aux, channel, expectsReply), CallPayload(sel, aux, expectsReply);
    assert (s.outgoing + packet)[|s.outgoing|..] == packet;
    assert packet[..HEADER_SIZE] == HeaderBytes(CallHeader(NextID(s), sel, aux, channel, expectsReply));
    assert packet[HEADER_SIZE..HEADER_SIZE + PAYLOAD_SIZE] == PayloadBytes(body);
    assert packet[HEADER_SIZE + PAYLOAD_SIZE..] == aux + sel;
    HeaderRoundTrip(CallHeader(NextID(s), sel, aux, channel, expectsReply));
    PayloadRoundTrip(body);
  }

  /**
   What an answer puts on the wire, read back: an unfragmented header that echoes the identifier and the channel
   of the request one step further in its conversation and asks for no reply, and an empty payload header.
   */
  lemma AnswerEchoes(s: State, h: Header, d: Decoder)
    requires h in s.toReply
    ensures var s' := Apply(s, Answering(h, Complete), d);
            s.outgoing <= s'.outgoing && s'.toReply + multiset{h} == s.toReply
            && var sent := s'.outgoing[|s.outgoing|..];
            |sent| == HEADER_SIZE + PAYLOAD_SIZE && PayloadOf(sent[HEADER_SIZE..]) == Payload(0, 0, 0)
            && var reply := HeaderOf(sent[..HEADER_SIZE]);
            reply.magic == 0x1F3D5B79 && reply.cb == 32 && reply.fragmentId == 0 && reply.fragmentCount == 1
            && reply.identifier == h.identifier && reply.channelCode == h.channelCode
            && reply.conversationIndex == (h.conversationIndex + 1) % TWO32 && reply.expectsReply == 0
            && 32 + reply.length == |sent|
  {
    hide HeaderBytes, HeaderOf, PayloadBytes, PayloadOf;
    var packet := ReplyPacket(h);
    assert (s.outgoing + packet)[|s.outgoing|..] == packet;
    assert packet[..HEADER_SIZE] == HeaderBytes(ReplyHeader(h));
    assert packet[HEADER_SIZE..] == PayloadBytes(Payload(0, 0, 0));
    HeaderRoundTrip(ReplyHeader(h));
    PayloadRoundTrip(Payload(0, 0, 0));
  }

  // ---------------------------------------------------------------------------------------------
  // Callbacks
  // ---------------------------------------------------------------------------------------------

  /** What a step decodes, whether it is then filed or queued for a reply. */
  function DecodedBy(s: State, e: Event, d: Decoder): Option<DTXMessageResult> {
    if !e.Receiving? then None
    else
      match Receive(s, d).1
      case Stored(_, _, r) => Some(r)
      case Asked(_, r) => Some(r)
      case _ => None
  }

  /** The names registered at the start and by these steps. */
  function Registered(names: set<string>, es: seq<Event>): set<string> {
    if es == [] then names
    else
      var before := Registered(names, es[..|es|-1]);
      if es[|es|-1].Registering? then before + {es[|es|-1].name} else before
  }

  /** The messages decoded in a run, each with the names registered by then. */
  function DecodedAll(s: State, es: seq<Event>, d: Decoder): seq<(set<string>, DTXMessageResult)> {
    if es == [] then []
    else
      var before := es[..|es|-1];
      match DecodedBy(Run(s, before, d), es[|es|-1], d)
      case None => DecodedAll(s, before, d)
      case Some(r) => DecodedAll(s, before, d) + [(Registered(s.callbacks, before), r)]
  }

  lemma ReceiveCalls(s: State, d: Decoder)
    ensures Receive(s, d).0.callbacks == s.callbacks
    ensures var r := DecodedBy(s, Receiving, d);
            Receive(s, d).0.called
            == s.called + if r.Some? then [(CallbackFor(s.callbacks, r.value.obj), r.value)] else []
  {
    hide Assemble, DecodePayload, CallbackFor;
  }

  lemma StepCalls(s: State, e: Event, d: Decoder)
    ensures Apply(s, e, d).callbacks == s.callbacks + if e.Registering? then {e.name} else {}
    ensures var r := DecodedBy(s, e, d);
            Apply(s, e, d).called
            == s.called + if r.Some? then [(CallbackFor(s.callbacks, r.value.obj), r.value)] else []
  {
    hide Receive, CallbackFor;
    ReceiveCalls(s, d);
  }

  /** The k-th message went to the callback of its object if one was registered by then, or else to the catch-all. */
  predicate WentTo(call: (string, DTXMessageResult), decoded: (set<string>, DTXMessageResult)) {
    var name := if decoded.1.obj.Str? then decoded.1.obj.s else "";
    call.1 == decoded.1 && call.0 == if name in decoded.0 then name else "_Golang-iDevice_Unregistered"
  }

  /**
   Every message decoded in a run goes to one callback, in order, and nothing else does: to the one registered for
   its object, at the start or by a step before, or else to the catch-all.
   */
  lemma {:induction false} CallbacksRun(s: State, es: seq<Event>, d: Decoder)
    ensures Run(s, es, d).callbacks == Registered(s.callbacks, es)
    ensures var called, decoded := Run(s, es, d).called, DecodedAll(s, es, d);
            |called| == |s.called| + |decoded| && s.called <= called
            && forall k :: 0 <= k < |decoded| ==> WentTo(called[|s.called| + k], decoded[k])
    decreases |es|
  {
    if es != [] {
      hide Apply, DecodedBy, WentTo, CallbackFor;
      var before, e := es[..|es|-1], es[|es|-1];
      CallbacksRun(s, before, d);
      var now := Run(s, before, d);
      StepCalls(now, e, d);
      var r := DecodedBy(now, e, d);
      if r.Some? { CallbackGoes(now.callbacks, r.value); }
    }
  }

  lemma CallbackGoes(names: set<string>, r: DTXMessageResult)
    ensures WentTo((CallbackFor(names, r.obj), r), (names, r))
  {}

  /**
   A reply read by a client of this library. It is taken in exactly when it answers an opening message and
   the counter still stands at its identifier; then it is filed under that identifier with no object and no
   arguments, and asks for no reply itself.
   */
  lemma ReplyReceived(s: State, h: Header, rest: seq<byte>, d: Decoder)
    requires s.incoming == ReplyPacket(h) + rest && h.conversationIndex < 2
    ensures var (s', r) := Receive(s, d);
            s'.toReply == s.toReply
            && if h.conversationIndex == 0 && s.msgID == h.identifier
               then r == Stored(ReplyHeader(h), Id(h.identifier), DTXMessageResult(Nil, [])) && s'.incoming == rest
               else r.Broke? && s'.incoming == PayloadBytes(Payload(0, 0, 0)) + rest
  {
    hide PayloadBytes, HeaderBytes, Assemble, DecodePayload;
    var f := Fragment(ReplyHeader(h), PayloadBytes(Payload(0, 0, 0)));
    assert Wire(Whole(f)) == ReplyPacket(h);
    if Accepts(s.msgID, f.header) {
      SynchronisedWhole(s.msgID, f, rest);
      EmptyPayload(d);
    } else {
      ConsumedIff(s.msgID, f, rest);
    }
  }

  lemma EmptyPayload(d: Decoder)
    ensures DecodePayload(d, PayloadBytes(Payload(0, 0, 0))) == Message(DTXMessageResult(Nil, []))
  {
    var p := Payload(0, 0, 0);
    var raw := PayloadBytes(p);
    assert raw[..PAYLOAD_SIZE] == raw;
    PayloadRoundTrip(p);
    hide PayloadOf, PayloadBytes;
    assert raw[16..16] == [];
  }

  // ---------------------------------------------------------------------------------------------
  // Invoke
  // ---------------------------------------------------------------------------------------------

  /** No result is filed under an identifier above the counter. */
  ghost predicate KeysBelow(s: State) {
    forall id: u32 :: Id(id) in s.results ==> id <= s.msgID
  }

  lemma {:induction false} LastAccepted(msgID: u32, input: seq<byte>, buf: seq<byte>, need: Option<Header>)
    ensures var a := Assemble(msgID, input, buf, need);
            a.Assembled? ==> a.last.identifier in AcceptedIn(msgID, input) && a.last.conversationIndex <= 1
    decreases |input|
  {
    hide HeaderOf, Identifiers;
    if |input| >= HEADER_SIZE {
      var h, rest := HeaderOf(input[..HEADER_SIZE]), input[HEADER_SIZE..];
      if Accepts(msgID, h) {
        IdentifiersFront(h, []);
        if Announces(h) {
          IdentifiersFront(h, HeadersRead(Bumped(msgID, h), rest));
          LastAccepted(Bumped(msgID, h), rest, buf, Asking(need, h));
        } else if |rest| >= h.length && !Closes(h) {
          IdentifiersFront(h, HeadersRead(Bumped(msgID, h), rest[h.length..]));
          LastAccepted(Bumped(msgID, h), rest[h.length..], buf + rest[..h.length], Asking(need, h));
        }
      }
    }
  }

  lemma StoredLast(s: State, d: Decoder)
    ensures var r := Receive(s, d).1;
            r.Stored? ==> r.last.identifier in AcceptedIn(s.msgID, s.incoming) && r.last.conversationIndex <= 1
                          && r.key == (if r.result.obj == Str("_notifyOfPublishedCapabilities:") then Published
                                       else Id(r.last.identifier))
  {
    LastAccepted(s.msgID, s.incoming, [], None);
    hide Assemble, DecodePayload, AcceptedIn;
  }

  /** A receive that fails changes the counter and the stream and nothing else, and fails as its payload does. */
  lemma ReceiveFails(s: State, d: Decoder)
    ensures var (s', r) := Receive(s, d);
            (r.Broke? || r.Crashed? ==> s' == s.(msgID := s'.msgID, incoming := s'.incoming))
            && match Assemble(s.msgID, s.incoming, [], None)
               case Broken(e, _, _) => r == Broke(e)
               case Assembled(_, _, raw, _, _) =>
                 (r.Crashed? <==> DecodePayload(d, raw) == Crash)
                 && forall e :: r == Broke(e) <==> DecodePayload(d, raw) == Refused(e)
  {
    hide Assemble, DecodePayload, CallbackFor, KeyFor;
  }

  lemma KeysStep(s: State, e: Event, d: Decoder)
    requires KeysBelow(s) && (e.Sending? ==> s.msgID < TWO32 - 1)
    ensures KeysBelow(Apply(s, e, d))
  {
    hide Receive, AcceptedIn;
    StepBounds(s, e, d);
    if e.Receiving? {
      ReceiveResults(s, d);
      var r := Receive(s, d).1;
      if r.Stored? {
        StoredLast(s, d);
        assert r.last.identifier in Seen(s, e);
      }
      forall id: u32 | Id(id) in Receive(s, d).0.results ensures id <= Receive(s, d).0.msgID {
        if Id(id) !in s.results { assert r.Stored? && r.key == Id(id); }
      }
    }
  }

  lemma {:induction false} KeysRun(s: State, es: seq<Event>, d: Decoder)
    requires KeysBelow(s) && NoWrap(s, es, d)
    ensures KeysBelow(Run(s, es, d))
    decreases |es|
  {
    if es != [] {
      hide Apply, KeysBelow;
      KeysRun(s, es[..|es|-1], d);
      KeysStep(Run(s, es[..|es|-1], d), es[|es|-1], d);
    }
  }

  /** The i-th step of a run files r under the identifier, out of a message of the given conversation index. */
  ghost predicate Files(s: State, es: seq<Event>, d: Decoder, i: nat, id: u32, index: u32, r: DTXMessageResult)
    requires i < |es|
  {
    es[i].Receiving? && var receipt := Receive(Run(s, es[..i], d), d).1;
    receipt.Stored? && receipt.key == Id(id) && receipt.result == r && receipt.last.conversationIndex == index
  }

  /** What stands under a key after a step stood there before, unless the step filed it. */
  lemma FiledBefore(s: State, e: Event, d: Decoder, key: Key)
    ensures key in Apply(s, e, d).results && !(e.Receiving? && Receive(s, d).1.Stored? && Receive(s, d).1.key == key)
            ==> key in s.results && Apply(s, e, d).results[key] == s.results[key]
  {
    hide Receive;
    if e.Receiving? { ReceiveResults(s, d); }
  }

  /** A result standing under an identifier that was free at the start was filed by some step of the run. */
  lemma {:induction false} FiledInRun(s: State, es: seq<Event>, d: Decoder, id: u32) returns (i: nat)
    requires Id(id) !in s.results
    ensures var end := Run(s, es, d);
            Id(id) in end.results ==>
              i < |es| && (Files(s, es, d, i, id, 0, end.results[Id(id)])
                        || Files(s, es, d, i, id, 1, end.results[Id(id)]))
    decreases |es|
  {
    i := 0;
    if es != [] && Id(id) in Run(s, es, d).results {
      var n := |es| - 1;
      var before, e := Run(s, es[..n], d), es[n];
      RunLast(s, es, d);
      hide Receive, Run, Apply, KeysBelow, Files;
      if e.Receiving? && Receive(before, d).1.Stored? && Receive(before, d).1.key == Id(id) {
        FiledLast(s, es, d, id);
        i := n;
      } else {
        FiledBefore(before, e, d, Id(id));
        i := FiledInRun(s, es[..n], d, id);
        FilesLonger(s, es, d, n, i, id);
      }
    }
  }

  lemma FilesLonger(s: State, es: seq<Event>, d: Decoder, n: nat, i: nat, id: u32)
    requires i < n <= |es|
    ensures forall index, r :: Files(s, es[..n], d, i, id, index, r) <==> Files(s, es, d, i, id, index, r)
  {
    hide Receive, Run;
    assert es[..n][..i] == es[..i];
  }

  lemma FiledLast(s: State, es: seq<Event>, d: Decoder, id: u32)
    requires es != [] && es[|es|-1].Receiving?
    ensures var n, r := |es| - 1, Receive(Run(s, es[..|es|-1], d), d).1;
            r.Stored? && r.key == Id(id) ==>
              Id(id) in Run(s, es, d).results
              && (Files(s, es, d, n, id, 0, Run(s, es, d).results[Id(id)])
                  || Files(s, es, d, n, id, 1, Run(s, es, d).results[Id(id)]))
  {
    hide Receive, AcceptedIn;
    var before := Run(s, es[..|es|-1], d);
    ReceiveResults(before, d);
    StoredLast(before, d);
    RunLast(s, es, d);
    hide Run;
  }

  lemma RunLast(s: State, es: seq<Event>, d: Decoder)
    requires es != []
    ensures Run(s, es, d) == Apply(Run(s, es[..|es|-1], d), es[|es|-1], d)
  {}

  /**
   Invoke gets the reply to its own request: the identifier a call sends under is free then, so whatever is
   taken under it after any further run was filed by that run; and it came in conversation 1, as an answer
   to this very identifier, unless the run filed an opening message of the peer under it.
   */
  lemma InvokeOwnReply(s: State, call: Event, window: seq<Event>, d: Decoder) returns (i: nat)
    requires KeysBelow(s) && call.Sending? && s.msgID < TWO32 - 1
    ensures var id, sent, end := NextID(s), Apply(s, call, d), Run(Apply(s, call, d), window, d);
            Id(id) in end.results ==>
              i < |window| && (Files(sent, window, d, i, id, 1, end.results[Id(id)])
                            || Files(sent, window, d, i, id, 0, end.results[Id(id)]))
  {
    hide Run, Files, Receive;
    i := FiledInRun(Apply(s, call, d), window, d, NextID(s));
  }

  /**
   The reply to a call passes the header checks after a run, if and only if the run has seen no identifier
   above that of the call, neither sent nor accepted.
   */
  lemma ReplyAcceptedIff(s: State, call: Event, window: seq<Event>, d: Decoder, h: Header)
    requires call.Sending? && s.msgID < TWO32 - 1
    requires h.magic == MAGIC && h.conversationIndex == 1 && h.identifier == NextID(s)
    ensures NoWrap(Apply(s, call, d), window, d) ==>
              (Accepts(Run(Apply(s, call, d), window, d).msgID, h)
               <==> forall id :: id in SeenAll(Apply(s, call, d), window, d) ==> id <= NextID(s))
  {
    hide Run, SeenAll, NoWrap;
    if NoWrap(Apply(s, call, d), window, d) { CounterBounds(Apply(s, call, d), window, d); }
  }

  /** A step files something under the key, or takes it out. */
  ghost predicate Touches(s: State, e: Event, d: Decoder, key: Key) {
    e == Polling(key) || (e.Receiving? && Receive(s, d).1.Stored? && Receive(s, d).1.key == key)
  }

  ghost predicate TouchesAny(s: State, es: seq<Event>, d: Decoder, key: Key) {
    es != [] && (TouchesAny(s, es[..|es|-1], d, key) || Touches(Run(s, es[..|es|-1], d), es[|es|-1], d, key))
  }

  /** A result filed under an identifier stays there, as it is, until a step files or polls under it. */
  lemma {:induction false} StaysUntilPolled(s: State, es: seq<Event>, d: Decoder, key: Key)
    requires key in s.results
    ensures !TouchesAny(s, es, d, key) ==> key in Run(s, es, d).results && Run(s, es, d).results[key] == s.results[key]
    ensures (forall i :: 0 <= i < |es| ==> es[i] != Polling(key)) ==> key in Run(s, es, d).results
    decreases |es|
  {
    if es != [] {
      hide Apply, Touches;
      var n := |es| - 1;
      StaysUntilPolled(s, es[..n], d, key);
      var now := Run(s, es[..n], d);
      if key in now.results && es[n] != Polling(key) { StaysOneStep(now, es[n], d, key); }
      if es[n] == Polling(key) { assert Touches(now, es[n], d, key) by { PollTouches(now, d, key); } }
    }
  }

  lemma PollTouches(s: State, d: Decoder, key: Key)
    ensures Touches(s, Polling(key), d, key)
  {}

  lemma StaysOneStep(s: State, e: Event, d: Decoder, key: Key)
    requires key in s.results && e != Polling(key)
    ensures key in Apply(s, e, d).results
    ensures !Touches(s, e, d, key) ==> Apply(s, e, d).results[key] == s.results[key]
  {
    hide Receive;
    if e.Receiving? { ReceiveResults(s, d); }
  }

  // ---------------------------------------------------------------------------------------------
  // A call gets the reply to it
  // ---------------------------------------------------------------------------------------------

  /** Every header answers the identifier, in conversation 1, and asks for no reply itself. */
  predicate AnswersTo(hs: seq<Header>, id: u32) {
    forall i :: 0 <= i < |hs| ==>
      hs[i].magic == MAGIC && hs[i].conversationIndex == 1 && hs[i].identifier == id && hs[i].expectsReply != 1
  }

  /** The next thing on the stream is a reply to the identifier, whole or in fragments, that says r. */
  ghost predicate Arrives(s: State, d: Decoder, reply: Sent, rest: seq<byte>, id: u32, r: DTXMessageResult) {
    s.incoming == Wire(reply) + rest && WellFormed(reply) && AnswersTo(Headers(reply), id)
    && DecodePayload(d, PayloadSent(reply)) == Message(r) && r.obj != Str(CAPABILITIES)
  }

  lemma {:induction false} AnswerAccepted(id: u32, hs: seq<Header>)
    requires AnswersTo(hs, id)
    ensures AcceptsAll(id, hs) && BumpedAll(id, hs) == id && AskingAll(None, hs) == None
    decreases |hs|
  {
    if hs != [] { AnswerAccepted(id, hs[1..]); }
  }

  lemma WireHead(m: Sent, rest: seq<byte>) returns (tail: seq<byte>)
    requires WellFormed(m)
    ensures Wire(m) + rest == HeaderBytes(Headers(m)[0]) + tail
  {
    hide HeaderBytes, FragmentsBytes;
    tail := match m case Whole(f) => f.body + rest case Split(_, parts) => FragmentsBytes(parts) + rest;
  }

  /** A reply is filed, under its identifier and to its last byte, if the counter stands there; else it is refused. */
  lemma ReplyFiled(s: State, d: Decoder, reply: Sent, rest: seq<byte>, id: u32, r: DTXMessageResult)
    ensures var (s', receipt) := Receive(s, d);
            Arrives(s, d, reply, rest, id, r) ==>
              if s.msgID == id
              then receipt.Stored? && receipt.key == Id(id) && Poll(s', Id(id)).1 == Some(r) && s'.incoming == rest
              else receipt == Broke(BadIdentifier) && s'.results == s.results
  {
    hide Assemble, HeaderBytes, Wire, FragmentsBytes, DecodePayload, Headers, AcceptsAll, BumpedAll, AskingAll,
         Continue;
    if !Arrives(s, d, reply, rest, id, r) {
    } else if s.msgID == id {
      AnswerAccepted(id, Headers(reply));
      Synchronised(id, reply, rest);
    } else {
      var tail := WireHead(reply, rest);
      AssembleOne(s.msgID, Headers(reply)[0], tail, [], None);
      RefusedFirst(s.msgID, Headers(reply)[0], tail);
    }
  }

  lemma RefusedFirst(msgID: u32, h: Header, tail: seq<byte>)
    requires h.magic == MAGIC && h.conversationIndex == 1 && h.identifier != msgID
    ensures Continue(msgID, h, tail, [], None) == Broken(BadIdentifier, msgID, tail)
  {}

  /**
   A call gets the reply to it, in any interleaving. If the reply is what the stream holds after the steps of some
   window, then the next receive files it under the call's identifier if and only if the window has seen no larger
   identifier, sent or accepted; and any later poll finds it, as long as nothing else has been filed or polled there.
   */
  lemma CallGetsReply(s: State, call: Event, window: seq<Event>, later: seq<Event>, d: Decoder,
                      reply: Sent, rest: seq<byte>, r: DTXMessageResult)
    requires call.Sending? && s.msgID < TWO32 - 1
    ensures var id, sent := NextID(s), Apply(s, call, d);
            var now := Run(sent, window, d);
            var (filed, receipt) := Receive(now, d);
            NoWrap(sent, window, d) && Arrives(now, d, reply, rest, id, r) ==>
              ((receipt.Stored? && receipt.key == Id(id) && receipt.result == r && filed.incoming == rest)
                <==> forall seen :: seen in SeenAll(sent, window, d) ==> seen <= id)
              && (receipt.Stored? && !TouchesAny(filed, later, d, Id(id)) ==>
                    Poll(Run(filed, later, d), Id(id)).1 == Some(r))
  {
    hide Run, SeenAll, NoWrap, Receive, Arrives, TouchesAny;
    var id, sent := NextID(s), Apply(s, call, d);
    var now := Run(sent, window, d);
    if NoWrap(sent, window, d) && Arrives(now, d, reply, rest, id, r) {
      CounterBounds(sent, window, d);
      ReplyFiled(now, d, reply, rest, id, r);
      ReceiveResults(now, d);
      var filed := Receive(now, d).0;
      if Receive(now, d).1.Stored? { StaysUntilPolled(filed, later, d, Id(id)); }
    }
  }

  function Receives(n: nat): (es: seq<Event>)
    ensures |es| == n
  {
    if n == 0 then [] else Receives(n - 1) + [Receiving]
  }

  /** The receives a waiting caller lets pass are a run of their own. */
  lemma {:induction false} ReceiveTimesRun(s: State, d: Decoder, n: nat)
    ensures ReceiveTimes(s, d, n) == Run(s, Receives(n), d) && NoWrap(s, Receives(n), d)
    decreases n
  {
    if n > 0 {
      hide Receive;
      ReceiveTimesRun(s, d, n - 1);
      assert Receives(n)[..n-1] == Receives(n - 1);
    }
  }

  /**
   What Invoke and MakeChannel return: a caller that waits until its reply has been received gets what the reply
   says if no larger identifier was accepted while it waited. Otherwise the reply is refused, and all it can get is
   what had been filed under its identifier before.
   */
  lemma CallAnswered(s: State, d: Decoder, sel: seq<byte>, aux: seq<byte>, channel: u32, w: Write, n: nat,
                     reply: Sent, rest: seq<byte>, r: DTXMessageResult)
    requires s.msgID < TWO32 - 1
    ensures var id, sent := NextID(s), Send(s, sel, aux, channel, true, w);
            var waiting := ReceiveTimes(sent, d, n);
            var (end, result) := Call(s, d, sel, aux, channel, true, w, n + 1);
            Succeeds(CallPacket(id, sel, aux, channel, true), w) && Arrives(waiting, d, reply, rest, id, r) ==>
              if forall seen :: seen in SeenAll(sent, Receives(n), d) ==> seen <= id
              then result == Some(r) && end.incoming == rest
              else result == Poll(waiting, Id(id)).1
  {
    hide Receive, CallPacket, Arrives, SeenAll, Run, NoWrap;
    var id, sent := NextID(s), Send(s, sel, aux, channel, true, w);
    var waiting := ReceiveTimes(sent, d, n);
    ReceiveTimesRun(sent, d, n);
    CounterBounds(sent, Receives(n), d);
    ReplyFiled(waiting, d, reply, rest, id, r);
  }

  /** A reply with these two parts, sent whole: the bytes of its header, its payload header and the parts. */
  function ReplyBytes(h: Header, flags: u32, args: seq<byte>, obj: seq<byte>): seq<byte>
    requires 16 + |args| + |obj| < TWO32
  {
    HeaderBytes(h) + (PayloadBytes(Payload(flags, |args|, |args| + |obj|)) + args + obj)
  }

  /** The header of one: it answers the identifier, asks for nothing, and announces as much as is sent. */
  predicate ReplyTo(h: Header, id: u32, n: nat) {
    h.magic == 0x1F3D5B79 && h.fragmentId == 0 && h.fragmentCount == 1 && h.length == 16 + n
    && h.identifier == id && h.conversationIndex == 1 && h.expectsReply != 1
  }

  /**
   The same on the wire. A caller that waits until a reply of two parts has come, either of which may be missing, gets
   what the parts say: the arguments read from the one and the object decoded from the other, an empty list and nil
   where they are missing.
   */
  lemma CallAnsweredWith(s: State, d: Decoder, sel: seq<byte>, aux: seq<byte>, channel: u32, w: Write, n: nat,
                         h: Header, flags: u32, args: seq<byte>, obj: seq<byte>, rest: seq<byte>,
                         r: DTXMessageResult)
    requires s.msgID < TWO32 - 1 && 16 + |args| + |obj| < TWO32 && Uncompressed(flags)
    requires ReplyTo(h, NextID(s), |args| + |obj|) && r.obj != Str(CAPABILITIES)
    requires AuxSays(d, args, r.aux) && ObjectSays(d, obj, r.obj)
    ensures var id, sent := NextID(s), Send(s, sel, aux, channel, true, w);
            var (end, result) := Call(s, d, sel, aux, channel, true, w, n + 1);
            Succeeds(CallPacket(id, sel, aux, channel, true), w)
            && ReceiveTimes(sent, d, n).incoming == ReplyBytes(h, flags, args, obj) + rest
            && (forall seen :: seen in SeenAll(sent, Receives(n), d) ==> seen <= id) ==>
              result == Some(r) && end.incoming == rest
  {
    hide CallPacket, Receive, SeenAll, Run, ReplyBytes, ReplyTo, Arrives, AuxSays, ObjectSays, Uncompressed;
    var id, sent := NextID(s), Send(s, sel, aux, channel, true, w);
    var waiting := ReceiveTimes(sent, d, n);
    if waiting.incoming == ReplyBytes(h, flags, args, obj) + rest {
      var reply := ReplyArrives(waiting, d, h, flags, args, obj, rest, id, r);
      CallAnswered(s, d, sel, aux, channel, w, n, reply, rest, r);
    }
  }

  lemma ReplyArrives(s: State, d: Decoder, h: Header, flags: u32, args: seq<byte>, obj: seq<byte>, rest: seq<byte>,
                     id: u32, r: DTXMessageResult) returns (reply: Sent)
    requires 16 + |args| + |obj| < TWO32 && Uncompressed(flags)
    requires ReplyTo(h, id, |args| + |obj|) && r.obj != Str(CAPABILITIES)
    requires AuxSays(d, args, r.aux) && ObjectSays(d, obj, r.obj)
    requires s.incoming == ReplyBytes(h, flags, args, obj) + rest
    ensures Arrives(s, d, reply, rest, id, r)
  {
    hide DecodePayload, HeaderBytes, PayloadBytes, PartsSay;
    var body := PayloadBytes(Payload(flags, |args|, |args| + |obj|)) + args + obj;
    reply := Whole(Fragment(h, body));
    PartsSayMessage(d, args, obj, r);
    MessageSays(d, flags, args, obj, Message(r));
    assert Headers(reply) == [h];
    assert PayloadSent(reply) == body && Wire(reply) == ReplyBytes(h, flags, args, obj);
  }

  lemma PartsSayMessage(d: Decoder, aux: seq<byte>, obj: seq<byte>, r: DTXMessageResult)
    ensures PartsSay(d, aux, obj, Message(r)) <==> AuxSays(d, aux, r.aux) && ObjectSays(d, obj, r.obj)
  {}

  /** The steps of a call: it waits and polls if it expects a reply and its packet went out whole. */
  function StepsOfCall(s: State, sel: seq<byte>, aux: seq<byte>, channel: u32, expectsReply: bool, w: Write, n: nat)
      : seq<Event>
  {
    var sending := Sending(sel, aux, channel, expectsReply, w);
    if expectsReply && Succeeds(CallPacket(NextID(s), sel, aux, channel, expectsReply), w)
    then [sending] + Receives(n) + [Polling(Id(NextID(s)))] else [sending]
  }

  lemma {:induction false} RunAppend(s: State, a: seq<Event>, b: seq<Event>, d: Decoder)
    ensures Run(s, a + b, d) == Run(Run(s, a, d), b, d)
    decreases |b|
  {
    hide Apply;
    if b == [] {
      assert a + b == a;
    } else {
      assert (a + b)[..|a + b|-1] == a + b[..|b|-1];
      RunAppend(s, a, b[..|b|-1], d);
    }
  }

  /** A call is a run of steps like any other, and what it returns is what its poll takes out, if it polls. */
  lemma CallIsRun(s: State, d: Decoder, sel: seq<byte>, aux: seq<byte>, channel: u32, expectsReply: bool, w: Write,
                  n: nat)
    ensures var (end, result) := Call(s, d, sel, aux, channel, expectsReply, w, n);
            var steps := StepsOfCall(s, sel, aux, channel, expectsReply, w, n);
            end == Run(s, steps, d)
            && DeliveredAll(s, steps, d) == if result.Some? then multiset{(Id(NextID(s)), result.value)} else multiset{}
  {
    hide CallPacket, Receive;
    var sending := Sending(sel, aux, channel, expectsReply, w);
    var sent := Send(s, sel, aux, channel, expectsReply, w);
    assert [sending][..0] == [];
    assert Run(s, [sending], d) == sent;
    var poll := [Polling(Id(NextID(s)))];
    ReceiveTimesRun(sent, d, n);
    RunAppend(s, [sending], Receives(n), d);
    RunAppend(s, [sending] + Receives(n), poll, d);
    NoPolls(s, [sending], d);
    ReceivesOnly(n);
    NoPolls(s, [sending] + Receives(n), d);
    assert ([sending] + Receives(n) + poll)[..n+1] == [sending] + Receives(n);
  }

  lemma {:induction false} NoPolls(s: State, es: seq<Event>, d: Decoder)
    requires forall i :: 0 <= i < |es| ==> !es[i].Polling?
    ensures DeliveredAll(s, es, d) == multiset{}
    decreases |es|
  {
    if es != [] { NoPolls(s, es[..|es|-1], d); }
  }

  lemma {:induction false} ReceivesOnly(n: nat)
    ensures forall i :: 0 <= i < n ==> Receives(n)[i] == Receiving
    decreases n
  {
    if n > 0 { ReceivesOnly(n - 1); }
  }
}
