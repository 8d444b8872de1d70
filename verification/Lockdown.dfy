/**
 The session machine of the lockdown client, lockdown.go: every request is one exchange with the device, and any
 exchange may fail before it is sent or be left without a usable answer.
 */
module Lockdowns {

  /**
   One request and its reply. An exchange is unanswered when no reply comes, when it cannot be read, and when it
   carries an error, as the reply to a refused request does: the packet client turns that into a failure.
   */
  datatype Exchange<R> = Unsent | Unanswered | Answered(reply: R)

  datatype SessionReply = SessionReply(enableSSL: bool, sessionID: string)

  datatype ServiceReply = ServiceReply(error: string, port: int, enableSSL: bool)

  datatype PairRead = Found | BadDevice | OtherError

  /** The exchanges of a handshake; pairing and saving the pair record are needed for a device not yet paired. */
  datatype Handshaking = Handshaking(query: Exchange<string>, read: PairRead, pair: Exchange<()>, saved: bool)

  /** A request that reached the wire, and what became of a session request. */
  datatype Entry =
    | QueryRequest
    | PairRequest
    | StartRequest(outcome: Outcome)
    | StopRequest(id: string, confirmed: bool)
    | ServiceRequest(name: string)

  /** No usable reply, a reply but no encryption, or a session whose id was recorded. */
  datatype Outcome = NoReply | NotSecured(id: string) | Recorded(id: string)

  /** The fields the machine updates, and the requests sent so far. */
  datatype Session = Session(sessionID: string, sent: seq<Entry>)

  const LOCKDOWN_TYPE := "com.apple.mobile.lockdown"

  // ---------------------------------------------------------------------------------------------
  // What one call does
  // ---------------------------------------------------------------------------------------------

  function Shaken(s: Session, h: Handshaking): (Session, bool) {
    match h.query
    case Unsent => (s, false)
    case Unanswered => (s.(sent := s.sent + [QueryRequest]), false)
    case Answered(kind) =>
      var asked := s.(sent := s.sent + [QueryRequest]);
      if kind != LOCKDOWN_TYPE then (asked, false)
      else
        match h.read
        case Found => (asked, true)
        case OtherError => (asked, false)
        case BadDevice =>
          if h.pair.Unsent? then (asked, false)
          else (asked.(sent := asked.sent + [PairRequest]), h.pair.Answered? && h.saved)
  }

  function Stopped(s: Session, stop: Exchange<()>): (Session, bool) {
    if s.sessionID == "" then (s, true)
    else
      match stop
      case Unsent => (s, false)
      case Unanswered => (s.(sent := s.sent + [StopRequest(s.sessionID, false)]), false)
      case Answered(_) => (Session("", s.sent + [StopRequest(s.sessionID, true)]), true)
  }

  function Started(s: Session, stop: Exchange<()>, start: Exchange<SessionReply>, secured: bool): (Session, bool) {
    var (s1, ok) := Stopped(s, stop);
    if !ok then (s1, false)
    else
      match start
      case Unsent => (s1, false)
      case Unanswered => (s1.(sent := s1.sent + [StartRequest(NoReply)]), false)
      case Answered(reply) =>
        if reply.enableSSL && !secured then (s1.(sent := s1.sent + [StartRequest(NotSecured(reply.sessionID))]), false)
        else (Session(reply.sessionID, s1.sent + [StartRequest(Recorded(reply.sessionID))]), true)
  }

  function Asked(s: Session, name: string, service: Exchange<ServiceReply>): (Session, bool) {
    (if service.Unsent? then s else s.(sent := s.sent + [ServiceRequest(name)]),
     service.Answered? && service.reply.error == "")
  }

  /** The exchanges of one service start: before, stop is the one of a session still running. */
  datatype Service = Service(name: string, handshake: Handshaking, before: Exchange<()>, start: Exchange<SessionReply>,
                             secured: bool, service: Exchange<ServiceReply>, after: Exchange<()>,
                             connects: bool, serviceSecured: bool)

  function Served(s: Session, v: Service): (Session, bool) {
    var (s1, shaken) := Shaken(s, v.handshake);
    if !shaken then (s1, false)
    else
      var (s2, started) := Started(s1, v.before, v.start, v.secured);
      if !started then (s2, false)
      else
        var (s3, asked) := Asked(s2, v.name, v.service);
        if !asked then (s3, false)
        else
          var (s4, stopped) := Stopped(s3, v.after);
          (s4, stopped && v.connects && (v.service.reply.enableSSL ==> v.serviceSecured))
  }

  class Lockdown {
    var sessionID: string
    var sent: seq<Entry>

    ghost function View(): Session
      reads this
    {
      Session(sessionID, sent)
    }

    constructor ()
      ensures View() == Session("", [])
    {
      sessionID, sent := "", [];
    }

    method Handshake(h: Handshaking) returns (ok: bool)
      modifies this
      ensures (View(), ok) == Shaken(old(View()), h)
    {
      if h.query.Unsent? { return false; }
      sent := sent + [QueryRequest];
      if h.query.Unanswered? || h.query.reply != LOCKDOWN_TYPE { return false; }
      if h.read.Found? { return true; }
      if h.read.OtherError? { return false; }
      if h.pair.Unsent? { return false; }
      sent := sent + [PairRequest];
      if h.pair.Unanswered? { return false; }
      ok := h.saved;
    }

    method StopSession(stop: Exchange<()>) returns (ok: bool)
      modifies this
      ensures (View(), ok) == Stopped(old(View()), stop)
    {
      if sessionID == "" { return true; }
      if stop.Unsent? { return false; }
      sent := sent + [StopRequest(sessionID, stop.Answered?)];
      if stop.Unanswered? { return false; }
      sessionID := "";
      ok := true;
    }

    method StartSession(stop: Exchange<()>, start: Exchange<SessionReply>, secured: bool) returns (ok: bool)
      modifies this
      ensures (View(), ok) == Started(old(View()), stop, start, secured)
    {
      if sessionID != "" {
        ok := StopSession(stop);
        if !ok { return; }
      }
      match start
      case Unsent => ok := false;
      case Unanswered =>
        sent := sent + [StartRequest(NoReply)];
        ok := false;
      case Answered(reply) =>
        if reply.enableSSL && !secured {
          sent := sent + [StartRequest(NotSecured(reply.sessionID))];
          return false;
        }
        sent := sent + [StartRequest(Recorded(reply.sessionID))];
        sessionID := reply.sessionID;
        ok := true;
    }

    method StartService(name: string, service: Exchange<ServiceReply>) returns (port: int, enableSSL: bool, ok: bool)
      modifies this
      ensures (View(), ok) == Asked(old(View()), name, service)
      ensures ok ==> port == service.reply.port && enableSSL == service.reply.enableSSL
      ensures !ok ==> port == 0 && !enableSSL
    {
      if service.Unsent? { return 0, false, false; }
      sent := sent + [ServiceRequest(name)];
      if service.Unanswered? || service.reply.error != "" { return 0, false, false; }
      port, enableSSL, ok := service.reply.port, service.reply.enableSSL, true;
    }

    /** _startService. */
    method OpenService(v: Service) returns (ok: bool)
      modifies this
      ensures (View(), ok) == Served(old(View()), v)
    {
      hide Shaken, Started, Stopped, Asked;
      ok := Handshake(v.handshake);
      if !ok { return; }
      ok := StartSession(v.before, v.start, v.secured);
      if !ok { return; }
      var port, enableSSL;
      port, enableSSL, ok := StartService(v.name, v.service);
      if !ok { return; }
      ok := StopSession(v.after);
      if !ok { return; }
      if !v.connects { return false; }
      ok := enableSSL ==> v.serviceSecured;
    }
  }

  // ---------------------------------------------------------------------------------------------
  // The discipline, over any sequence of calls
  // ---------------------------------------------------------------------------------------------

  /** The session on record after these requests, read off the requests alone. */
  function Held(log: seq<Entry>): string {
    if log == [] then ""
    else
      match log[|log|-1]
      case StartRequest(Recorded(id)) => id
      case StopRequest(_, true) => ""
      case _ => Held(log[..|log|-1])
  }

  /** No session is started while one is on record, and the one stopped is the one on record. */
  ghost predicate Orderly(log: seq<Entry>) {
    forall i :: 0 <= i < |log| ==>
      (log[i].StartRequest? ==> Held(log[..i]) == "")
      && (log[i].StopRequest? ==> log[i].id == Held(log[..i]) != "")
  }

  ghost predicate Valid(s: Session) { s.sessionID == Held(s.sent) && Orderly(s.sent) }

  datatype Call =
    | CallStart(stop: Exchange<()>, start: Exchange<SessionReply>, secured: bool)
    | CallStop(stop: Exchange<()>)
    | CallService(service: Service)

  function Step(s: Session, call: Call): (Session, bool) {
    match call
    case CallStart(stop, start, secured) => Started(s, stop, start, secured)
    case CallStop(stop) => Stopped(s, stop)
    case CallService(v) => Served(s, v)
  }

  function RunCalls(s: Session, calls: seq<Call>): Session {
    if calls == [] then s else Step(RunCalls(s, calls[..|calls|-1]), calls[|calls|-1]).0
  }

  lemma AppendValid(s: Session, e: Entry, id: string)
    requires Valid(s)
    requires e.StartRequest? ==> s.sessionID == ""
    requires e.StopRequest? ==> e.id == s.sessionID != ""
    requires match e
             case StartRequest(Recorded(r)) => id == r
             case StopRequest(_, true) => id == ""
             case _ => id == s.sessionID
    ensures Valid(Session(id, s.sent + [e]))
  {
    var log := s.sent + [e];
    assert log[..|s.sent|] == s.sent;
    forall i | 0 <= i < |s.sent| ensures log[..i] == s.sent[..i] {}
  }

  lemma StoppedValid(s: Session, stop: Exchange<()>)
    requires Valid(s)
    ensures Valid(Stopped(s, stop).0)
    ensures Stopped(s, stop).1 ==> Stopped(s, stop).0.sessionID == ""
  {
    hide Valid;
    if s.sessionID != "" {
      AppendValid(s, StopRequest(s.sessionID, false), s.sessionID);
      AppendValid(s, StopRequest(s.sessionID, true), "");
    }
  }

  lemma StartedValid(s: Session, stop: Exchange<()>, start: Exchange<SessionReply>, secured: bool)
    requires Valid(s)
    ensures Valid(Started(s, stop, start, secured).0)
  {
    hide Valid, Stopped;
    StoppedValid(s, stop);
    var (s1, ok) := Stopped(s, stop);
    if ok {
      AppendValid(s1, StartRequest(NoReply), "");
      if start.Answered? {
        var id := start.reply.sessionID;
        AppendValid(s1, StartRequest(NotSecured(id)), "");
        AppendValid(s1, StartRequest(Recorded(id)), id);
      }
    }
  }

  lemma ServedValid(s: Session, v: Service)
    requires Valid(s)
    ensures Valid(Served(s, v).0)
    ensures Served(s, v).1 ==> Served(s, v).0.sessionID == ""
  {
    hide Valid, Stopped, Started;
    AppendValid(s, QueryRequest, s.sessionID);
    var asked := s.(sent := s.sent + [QueryRequest]);
    AppendValid(asked, PairRequest, s.sessionID);
    var (s1, shaken) := Shaken(s, v.handshake);
    StartedValid(s1, v.before, v.start, v.secured);
    var (s2, started) := Started(s1, v.before, v.start, v.secured);
    AppendValid(s2, ServiceRequest(v.name), s2.sessionID);
    var (s3, answered) := Asked(s2, v.name, v.service);
    StoppedValid(s3, v.after);
  }

  /**
   Over any sequence of calls, whatever fails: no session is started while one is on record, a stop
   always names the one on record, the field is what the requests say, and a service start that succeeds leaves none.
   */
  lemma {:induction false} SessionDiscipline(calls: seq<Call>)
    ensures var s := RunCalls(Session("", []), calls);
            Orderly(s.sent) && s.sessionID == Held(s.sent)
    ensures calls != [] && calls[|calls|-1].CallService?
            && Step(RunCalls(Session("", []), calls[..|calls|-1]), calls[|calls|-1]).1
            ==> RunCalls(Session("", []), calls).sessionID == ""
    decreases |calls|
  {
    if calls != [] {
      SessionDiscipline(calls[..|calls|-1]);
      var s := RunCalls(Session("", []), calls[..|calls|-1]);
      assert Valid(s);
      hide Held, Orderly, Started, Stopped, Served;
      match calls[|calls|-1]
      case CallStart(stop, start, secured) => StartedValid(s, stop, start, secured);
      case CallStop(stop) => StoppedValid(s, stop);
      case CallService(v) => ServedValid(s, v);
    }
  }

  // ---------------------------------------------------------------------------------------------
  // A service start, written down in one line
  // ---------------------------------------------------------------------------------------------

  /** One stage: the request it sends, if it comes to that, and whether the next one is tried. */
  datatype Stage = Stage(request: seq<Entry>, ok: bool)

  /** The requests of the stages up to the first that fails, and whether none does. */
  function Until(stages: seq<Stage>): (seq<Entry>, bool) {
    if stages == [] then ([], true)
    else if !stages[0].ok then (stages[0].request, false)
    else (stages[0].request + Until(stages[1..]).0, Until(stages[1..]).1)
  }

  function OnWire<R>(x: Exchange<R>, e: Entry): seq<Entry> { if x.Unsent? then [] else [e] }

  /** The device must call itself lockdown; a device that is not paired is paired, and the pairing saved. */
  function ShakeStages(h: Handshaking): seq<Stage> {
    [Stage(OnWire(h.query, QueryRequest), h.query == Answered("com.apple.mobile.lockdown")),
     Stage([], h.read != OtherError)]
    + if h.read == BadDevice then [Stage(OnWire(h.pair, PairRequest), h.pair.Answered?), Stage([], h.saved)] else []
  }

  function StopStage(id: string, stop: Exchange<()>): seq<Stage> {
    if id == "" then [] else [Stage(OnWire(stop, StopRequest(id, stop.Answered?)), stop.Answered?)]
  }

  function StartStage(start: Exchange<SessionReply>, secured: bool): seq<Stage> {
    match start
    case Unsent => [Stage([], false)]
    case Unanswered => [Stage([StartRequest(NoReply)], false)]
    case Answered(r) =>
      if r.enableSSL && !secured then [Stage([StartRequest(NotSecured(r.sessionID))], false)]
      else [Stage([StartRequest(Recorded(r.sessionID))], true)]
  }

  /** Handshake, stop of the session left over, start, service, stop of the session started, connection. */
  function ServiceStages(id: string, v: Service): seq<Stage> {
    ShakeStages(v.handshake) + StopStage(id, v.before) + StartStage(v.start, v.secured)
    + [Stage(OnWire(v.service, ServiceRequest(v.name)), v.service.Answered? && v.service.reply.error == "")]
    + StopStage(if v.start.Answered? then v.start.reply.sessionID else "", v.after)
    + [Stage([], v.connects), Stage([], Secured(v))]
  }

  lemma {:induction false} UntilAppend(a: seq<Stage>, b: seq<Stage>)
    ensures Until(a + b) == if Until(a).1 then (Until(a).0 + Until(b).0, Until(b).1) else Until(a)
    decreases |a|
  {
    if a == [] {
      assert a + b == b && [] + Until(b).0 == Until(b).0;
    } else {
      assert (a + b)[1..] == a[1..] + b && (a + b)[0] == a[0];
      UntilAppend(a[1..], b);
      assert a[0].request + Until(a[1..]).0 + Until(b).0 == a[0].request + (Until(a[1..]).0 + Until(b).0);
    }
  }

  lemma UntilTwo(x: Stage, y: Stage)
    ensures Until([x]) == (x.request, x.ok)
    ensures Until([x, y]) == if x.ok then (x.request + y.request, y.ok) else (x.request, false)
  {
    assert [x, y][1..] == [y] && [y][1..] == [] && [x][1..] == [];
    assert x.request + [] == x.request && y.request + [] == y.request;
  }

  /** What a call does to the record of requests is what its stages say. */
  predicate Does(s: Session, r: (Session, bool), stages: seq<Stage>) {
    r.0.sent == s.sent + Until(stages).0 && r.1 == Until(stages).1
  }

  lemma ShakenStages(s: Session, h: Handshaking)
    ensures Does(s, Shaken(s, h), ShakeStages(h)) && Shaken(s, h).0.sessionID == s.sessionID
  {
    hide Until;
    var query := Stage(OnWire(h.query, QueryRequest), h.query == Answered("com.apple.mobile.lockdown"));
    var read, pair, saved := Stage([], h.read != OtherError), Stage(OnWire(h.pair, PairRequest), h.pair.Answered?),
                             Stage([], h.saved);
    UntilTwo(query, read);
    UntilTwo(pair, saved);
    UntilAppend([query, read], [pair, saved]);
    assert [query, read] + [] == [query, read];
  }

  lemma StoppedStages(s: Session, stop: Exchange<()>)
    ensures Does(s, Stopped(s, stop), StopStage(s.sessionID, stop))
    ensures Stopped(s, stop).1 ==> Stopped(s, stop).0.sessionID == ""
  {
    var stage := Stage(OnWire(stop, StopRequest(s.sessionID, stop.Answered?)), stop.Answered?);
    UntilTwo(stage, stage);
  }

  lemma StartedStages(s: Session, stop: Exchange<()>, start: Exchange<SessionReply>, secured: bool)
    ensures Does(s, Started(s, stop, start, secured), StopStage(s.sessionID, stop) + StartStage(start, secured))
    ensures Started(s, stop, start, secured).1 ==>
              start.Answered? && Started(s, stop, start, secured).0.sessionID == start.reply.sessionID
  {
    hide Stopped, StopStage, Does, StartStage;
    var r := Stopped(s, stop);
    StoppedStages(s, stop);
    StartStages(r.0, start, secured);
    DoesBoth(s, r, StopStage(s.sessionID, stop), Started(s, stop, start, secured), StartStage(start, secured));
  }

  /** The request for a session alone. */
  lemma StartStages(s: Session, start: Exchange<SessionReply>, secured: bool)
    ensures Does(s, match start
                    case Unsent => (s, false)
                    case Unanswered => (s.(sent := s.sent + [StartRequest(NoReply)]), false)
                    case Answered(r) =>
                      if r.enableSSL && !secured
                      then (s.(sent := s.sent + [StartRequest(NotSecured(r.sessionID))]), false)
                      else (Session(r.sessionID, s.sent + [StartRequest(Recorded(r.sessionID))]), true),
                 StartStage(start, secured))
  {
    var stage := StartStage(start, secured)[0];
    UntilTwo(stage, stage);
    hide Until;
  }

  /** One call after another: the stages of the second follow those of the first. */
  lemma DoesBoth(s: Session, r: (Session, bool), a: seq<Stage>, r': (Session, bool), b: seq<Stage>)
    requires Does(s, r, a) && (if r.1 then Does(r.0, r', b) else r' == r)
    ensures Does(s, r', a + b)
  {
    UntilAppend(a, b);
    hide Until;
    if r.1 { assert s.sent + Until(a).0 + Until(b).0 == s.sent + (Until(a).0 + Until(b).0); }
  }

  lemma AskedStages(s: Session, name: string, service: Exchange<ServiceReply>)
    ensures Does(s, Asked(s, name, service),
                 [Stage(OnWire(service, ServiceRequest(name)), service.Answered? && service.reply.error == "")])
    ensures Asked(s, name, service).0.sessionID == s.sessionID
  {
    var stage := Stage(OnWire(service, ServiceRequest(name)), service.Answered? && service.reply.error == "");
    UntilTwo(stage, stage);
  }

  lemma LastStages(s: Session, a: bool, b: bool)
    ensures Does(s, (s, a && b), [Stage([], a), Stage([], b)])
  {
    UntilTwo(Stage([], a), Stage([], b));
  }

  /**
   Whatever fails, a service start sends the requests of its stages up to the first that fails, and it succeeds if and
   only if none does.
   */
  lemma ServedStages(s: Session, v: Service)
    ensures Does(s, Served(s, v), ServiceStages(s.sessionID, v))
  {
    hide Shaken, Started, Stopped, Asked, Does, Served, ShakeStages, StopStage, StartStage;
    var (r1, r2, r3, r4, r5) := ServedSteps(s, v);
    ServedLast(s, v);
    ShakenStages(s, v.handshake);
    StartedStages(r1.0, v.before, v.start, v.secured);
    AskedStages(r2.0, v.name, v.service);
    StoppedStages(r3.0, v.after);
    LastStages(r4.0, v.connects, Secured(v));
    var id := if v.start.Answered? then v.start.reply.sessionID else "";
    var b1, b2 := ShakeStages(v.handshake), StopStage(s.sessionID, v.before) + StartStage(v.start, v.secured);
    var b3 := [Stage(OnWire(v.service, ServiceRequest(v.name)), v.service.Answered? && v.service.reply.error == "")];
    var b4, b5 := StopStage(id, v.after), [Stage([], v.connects), Stage([], Secured(v))];
    DoesBoth(s, r1, b1, r2, b2);
    DoesBoth(s, r2, b1 + b2, r3, b3);
    DoesBoth(s, r3, b1 + b2 + b3, r4, b4);
    DoesBoth(s, r4, b1 + b2 + b3 + b4, r5, b5);
    InOneLine(b1, StopStage(s.sessionID, v.before), StartStage(v.start, v.secured), b3, b4, b5);
  }

  lemma InOneLine(a: seq<Stage>, b: seq<Stage>, c: seq<Stage>, d: seq<Stage>, e: seq<Stage>, f: seq<Stage>)
    ensures a + (b + c) + d + e + f == a + b + c + d + e + f
  {}

  predicate Secured(v: Service) { v.service.Answered? && (v.service.reply.enableSSL ==> v.serviceSecured) }

  /** The calls of a service start, each made if those before it went well. */
  function ServedSteps(s: Session, v: Service)
    : ((Session, bool), (Session, bool), (Session, bool), (Session, bool), (Session, bool))
  {
    var r1 := Shaken(s, v.handshake);
    var r2 := if r1.1 then Started(r1.0, v.before, v.start, v.secured) else r1;
    var r3 := if r2.1 then Asked(r2.0, v.name, v.service) else r2;
    var r4 := if r3.1 then Stopped(r3.0, v.after) else r3;
    (r1, r2, r3, r4, if r4.1 then (r4.0, v.connects && Secured(v)) else r4)
  }

  lemma ServedLast(s: Session, v: Service)
    ensures Served(s, v) == ServedSteps(s, v).4
  {
    hide Shaken, Started, Stopped;
  }

  function HandshakeRequests(h: Handshaking): seq<Entry> {
    if h.read.Found? then [QueryRequest] else [QueryRequest, PairRequest]
  }

  function StopRequests(id: string): seq<Entry> { if id == "" then [] else [StopRequest(id, true)] }

  /**
   The requests of a service start that succeeds: a session still on record is stopped, the service is asked for
   right after a session was answered, and that session is stopped.
   */
  lemma SuccessfulService(s: Session, v: Service)
    requires Served(s, v).1
    ensures v.start.Answered?
    ensures Served(s, v).0.sent
         == s.sent + HandshakeRequests(v.handshake) + StopRequests(s.sessionID)
            + [StartRequest(Recorded(v.start.reply.sessionID)), ServiceRequest(v.name)]
            + StopRequests(v.start.reply.sessionID)
  {
    var (s1, shaken) := Shaken(s, v.handshake);
    assert s1.sent == s.sent + HandshakeRequests(v.handshake) && s1.sessionID == s.sessionID;
    var (s2, started) := Started(s1, v.before, v.start, v.secured);
    assert s2.sent == s1.sent + StopRequests(s.sessionID) + [StartRequest(Recorded(v.start.reply.sessionID))];
    var (s3, asked) := Asked(s2, v.name, v.service);
    assert Stopped(s3, v.after).0.sent == s3.sent + StopRequests(s3.sessionID);
  }

  /** The requests that precede that for the service. */
  function BeforeService(s: Session, v: Service): seq<Entry>
    requires v.start.Answered?
  {
    s.sent + HandshakeRequests(v.handshake) + StopRequests(s.sessionID)
    + [StartRequest(Recorded(v.start.reply.sessionID))]
  }

  /**
   A service start that succeeds asks for the service in the session just answered, and so inside a session if and
   only if the reply names one. Nothing checks that it does.
   */
  lemma ServiceInSession(s: Session, v: Service)
    requires Valid(s) && Served(s, v).1
    ensures v.start.Answered? && BeforeService(s, v) + [ServiceRequest(v.name)] <= Served(s, v).0.sent
    ensures Held(BeforeService(s, v)) == v.start.reply.sessionID
    ensures Held(BeforeService(s, v)) != "" <==> v.start.reply.sessionID != ""
  {
    SuccessfulService(s, v);
    hide Served, HandshakeRequests, StopRequests, Valid;
    var before := s.sent + HandshakeRequests(v.handshake) + StopRequests(s.sessionID);
    assert BeforeService(s, v)[..|before|] == before;
  }

  /** A start that succeeds although the reply, without an error, names no session. */
  function Nameless(name: string): Service {
    Service(name, Handshaking(Answered(LOCKDOWN_TYPE), Found, Unsent, false), Unsent, Answered(SessionReply(false, "")),
            false, Answered(ServiceReply("", 1, false)), Unsent, true, false)
  }

  lemma NamelessOutside(name: string)
    ensures Served(Session("", []), Nameless(name)).1
    ensures Served(Session("", []), Nameless(name)).0.sent
         == [QueryRequest, StartRequest(Recorded("")), ServiceRequest(name)]
    ensures Held(BeforeService(Session("", []), Nameless(name))) == ""
  {
    var s, v := Session("", []), Nameless(name);
    assert Valid(s);
    assert Served(s, v).1;
    ServiceInSession(s, v);
  }

  // ---------------------------------------------------------------------------------------------
  // The sessions the device has open
  // ---------------------------------------------------------------------------------------------

  /** The sessions the device has answered with, less those it has confirmed stopped. */
  function OpenOnDevice(log: seq<Entry>): set<string> {
    if log == [] then {}
    else
      var before := OpenOnDevice(log[..|log|-1]);
      match log[|log|-1]
      case StartRequest(NotSecured(id)) => if id == "" then before else before + {id}
      case StartRequest(Recorded(id)) => if id == "" then before else before + {id}
      case StopRequest(id, true) => before - {id}
      case _ => before
  }

  /** The ids of sessions that could not be secured. */
  function NeverSecured(log: seq<Entry>): set<string> {
    set i | 0 <= i < |log| && log[i].StartRequest? && log[i].outcome.NotSecured? && log[i].outcome.id != ""
      :: log[i].outcome.id
  }

  predicate Opens(e: Entry, id: string) {
    e.StartRequest? && !e.outcome.NoReply? && e.outcome.id == id != ""
  }

  /** The device does not hand out the same id twice. */
  ghost predicate FreshIds(log: seq<Entry>) {
    forall i, j, id :: 0 <= i < j < |log| && Opens(log[i], id) ==> !Opens(log[j], id)
  }

  lemma {:induction false} OpenWereOpened(log: seq<Entry>, id: string)
    requires id in OpenOnDevice(log)
    ensures exists i :: 0 <= i < |log| && Opens(log[i], id)
    decreases |log|
  {
    var n := |log| - 1;
    if !Opens(log[n], id) {
      OpenWereOpened(log[..n], id);
      var i :| 0 <= i < n && Opens(log[..n][i], id);
      assert Opens(log[i], id);
    }
  }

  /** One more request: the sessions never secured, given those before. */
  lemma NeverSecuredStep(log: seq<Entry>)
    requires log != []
    ensures var before, e := log[..|log|-1], log[|log|-1];
            NeverSecured(log) == NeverSecured(before)
              + if e.StartRequest? && e.outcome.NotSecured? && e.outcome.id != "" then {e.outcome.id} else {}
  {
    var before, e := log[..|log|-1], log[|log|-1];
    forall id | id in NeverSecured(before) ensures id in NeverSecured(log) {
      var i :| 0 <= i < |before| && before[i].StartRequest? && before[i].outcome.NotSecured?
            && before[i].outcome.id == id != "";
      assert log[i] == before[i];
    }
  }

  /**
   What the device has open is the session on record and, for good, every session that could not be secured: the
   client forgets those without stopping them.
   */
  lemma {:induction false} OpenSessions(log: seq<Entry>)
    requires Orderly(log) && FreshIds(log)
    ensures OpenOnDevice(log) == NeverSecured(log) + if Held(log) == "" then {} else {Held(log)}
    ensures Held(log) !in NeverSecured(log)
    decreases |log|
  {
    if log != [] {
      var n := |log| - 1;
      var before, e := log[..n], log[n];
      assert forall i :: 0 <= i < n ==> before[..i] == log[..i];
      OpenSessions(before);
      NeverSecuredStep(log);
      if e.StartRequest? && !e.outcome.NoReply? && e.outcome.id in OpenOnDevice(before) {
        OpenWereOpened(before, e.outcome.id);
        var i :| 0 <= i < n && Opens(before[i], e.outcome.id);
        assert Opens(log[i], e.outcome.id) && Opens(log[n], e.outcome.id);
        assert false;
      }
    }
  }
}
