/**
 What ReceiveDTXMessage takes from a stream, said of the bytes themselves: how many turns of its loop they make,
 where it stops, which header it will answer, and what the two parts of the payload come to.
 */
module DtxReading {
  import opened Bytes
  import opened GoValues
  import opened Unarchiver
  import opened AuxBuffers
  import opened DtxPackets
  import opened DtxMessages

  // ---------------------------------------------------------------------------------------------
  // Turns of the loop
  // ---------------------------------------------------------------------------------------------

  /** A header without a body: the first of several fragments. */
  predicate Bodiless(h: Header) { h.fragmentId == 0 && h.fragmentCount > 1 }

  /** One turn as it stands on the wire. */
  predicate Turn(f: Fragment) { |f.body| == if Bodiless(f.header) then 0 else f.header.length }

  /** The turn the loop ends with. A count of 0 stands for the number before it on 16 bits, 65535. */
  predicate EndsLoop(h: Header) {
    !Bodiless(h) && h.fragmentId == if h.fragmentCount == 0 then 65535 else h.fragmentCount - 1
  }

  /** id is the largest of msgID and the identifiers of the conversations opened. */
  ghost predicate Largest(id: u32, msgID: u32, hs: seq<Header>) {
    id >= msgID
    && (forall i :: 0 <= i < |hs| && hs[i].conversationIndex == 0 ==> hs[i].identifier <= id)
    && (id == msgID || exists i :: 0 <= i < |hs| && hs[i].conversationIndex == 0 && hs[i].identifier == id)
  }

  /** A header the loop goes on with: it opens a conversation, or answers the largest identifier so far. */
  ghost predicate Goes(msgID: u32, before: seq<Header>, h: Header) {
    h.magic == 0x1F3D5B79
    && (h.conversationIndex == 0 || (h.conversationIndex == 1 && Largest(h.identifier, msgID, before)))
  }

  ghost predicate AllGo(msgID: u32, hs: seq<Header>) {
    forall i :: 0 <= i < |hs| ==> Goes(msgID, hs[..i], hs[i])
  }

  /** The last header that asks for a reply. */
  ghost predicate LastAsking(request: Option<Header>, hs: seq<Header>) {
    match request
    case None => forall i :: 0 <= i < |hs| ==> hs[i].expectsReply != 1
    case Some(h) => exists i :: 0 <= i < |hs| && AskedAt(hs, i, h)
  }

  predicate AskedAt(hs: seq<Header>, i: nat, h: Header)
    requires i < |hs|
  {
    hs[i] == h && h.expectsReply == 1 && forall j :: i < j < |hs| ==> hs[j].expectsReply != 1
  }

  /** Where the loop breaks off after these headers, and what it leaves unread. */
  ghost predicate BreaksOff(e: Error, id: u32, rest: seq<byte>, msgID: u32, hs: seq<Header>, tail: seq<byte>) {
    (|tail| < 32 && e == EndOfStream && rest == [] && Largest(id, msgID, hs))
    || (|tail| >= 32 && var h, more := HeaderOf(tail[..32]), tail[32..];
        (rest == more && Largest(id, msgID, hs) && !Goes(msgID, hs, h)
         && e == (if h.magic != 0x1F3D5B79 then BadMagic
                  else if h.conversationIndex == 1 then BadIdentifier
                  else BadConversation))
        || (Goes(msgID, hs, h) && !Bodiless(h) && |more| < h.length
            && e == EndOfStream && rest == [] && Largest(id, msgID, hs + [h])))
  }

  /** What the loop comes to on a stream that begins with these turns. */
  ghost predicate LoopResult(a: Assembly, msgID: u32, fs: seq<Fragment>, tail: seq<byte>) {
    var hs := HeadersOf(fs);
    match a
    case Assembled(last, need, raw, id, rest) =>
      fs != [] && (forall i :: 0 <= i < |hs| ==> (EndsLoop(hs[i]) <==> i == |hs| - 1))
      && last == hs[|hs|-1] && LastAsking(need, hs) && raw == Bodies(fs) && Largest(id, msgID, hs) && rest == tail
    case Broken(e, id, rest) =>
      (forall i :: 0 <= i < |hs| ==> !EndsLoop(hs[i])) && BreaksOff(e, id, rest, msgID, hs, tail)
  }

  lemma AcceptsGoes(msgID: u32, h: Header)
    ensures Accepts(msgID, h) <==> Goes(msgID, [], h)
    ensures Largest(msgID, msgID, []) && Largest(Bumped(msgID, h), msgID, [h])
    ensures Announces(h) <==> Bodiless(h)
    ensures !Announces(h) ==> (Closes(h) <==> EndsLoop(h))
  {
    assert [h][0] == h;
  }

  /** One header more in front. */
  lemma LargestFront(id: u32, msgID: u32, h: Header, hs: seq<Header>)
    ensures Largest(id, Bumped(msgID, h), hs) <==> Largest(id, msgID, [h] + hs)
  {
    var all := [h] + hs;
    assert all[0] == h && forall i :: 0 <= i < |hs| ==> all[i+1] == hs[i];
    if Largest(id, Bumped(msgID, h), hs) && id != msgID {
      if i :| 0 <= i < |hs| && hs[i].conversationIndex == 0 && hs[i].identifier == id {
        assert all[i+1].identifier == id;
      } else {
        assert all[0].identifier == id;
      }
    }
  }

  lemma GoesFront(msgID: u32, h: Header, hs: seq<Header>, x: Header)
    ensures Goes(Bumped(msgID, h), hs, x) <==> Goes(msgID, [h] + hs, x)
  {
    LargestFront(x.identifier, msgID, h, hs);
    hide Largest, Bumped;
  }

  lemma AllGoFront(msgID: u32, h: Header, hs: seq<Header>)
    requires Accepts(msgID, h) && AllGo(Bumped(msgID, h), hs)
    ensures AllGo(msgID, [h] + hs)
  {
    var all := [h] + hs;
    AcceptsGoes(msgID, h);
    hide Goes, Accepts, Bumped;
    assert all[..0] == [];
    forall i | 1 <= i < |all| ensures Goes(msgID, all[..i], all[i]) {
      assert all[..i] == [h] + hs[..i-1];
      GoesFront(msgID, h, hs[..i-1], hs[i-1]);
    }
  }

  lemma BreaksFront(e: Error, id: u32, rest: seq<byte>, msgID: u32, h: Header, hs: seq<Header>, tail: seq<byte>)
    requires BreaksOff(e, id, rest, Bumped(msgID, h), hs, tail)
    ensures BreaksOff(e, id, rest, msgID, [h] + hs, tail)
  {
    hide Largest, Goes, Bumped, HeaderOf, Bodiless;
    LargestFront(id, msgID, h, hs);
    if |tail| >= 32 {
      var x := HeaderOf(tail[..32]);
      GoesFront(msgID, h, hs, x);
      LargestFront(id, msgID, h, hs + [x]);
      assert [h] + (hs + [x]) == [h] + hs + [x];
    }
  }

  lemma FragmentsFront(f: Fragment, fs: seq<Fragment>)
    ensures FragmentsBytes([f] + fs) == HeaderBytes(f.header) + f.body + FragmentsBytes(fs)
    ensures Bodies([f] + fs) == f.body + Bodies(fs) && HeadersOf([f] + fs) == [f.header] + HeadersOf(fs)
  {
    hide HeaderBytes;
    assert ([f] + fs)[1..] == fs;
  }

  /** What a receive has asked for, out of what it had asked for before and the headers since. */
  ghost predicate AskingSince(need: Option<Header>, hs: seq<Header>, request: Option<Header>) {
    if LastAsking(None, hs) then request == need else request.Some? && LastAsking(request, hs)
  }

  lemma AskingFront(need: Option<Header>, h: Header, hs: seq<Header>, request: Option<Header>)
    requires AskingSince(Asking(need, h), hs, request)
    ensures AskingSince(need, [h] + hs, request)
  {
    var all := [h] + hs;
    assert all[0] == h && forall i :: 0 <= i < |hs| ==> all[i+1] == hs[i];
    if !LastAsking(None, hs) {
      var i :| 0 <= i < |hs| && AskedAt(hs, i, request.value);
      assert AskedAt(all, i + 1, request.value);
    } else if h.expectsReply == 1 {
      assert AskedAt(all, 0, h);
    }
  }

  /** The same from any point of the loop on. */
  ghost predicate LoopFrom(a: Assembly, msgID: u32, buf: seq<byte>, need: Option<Header>,
                           fs: seq<Fragment>, tail: seq<byte>)
  {
    var hs := HeadersOf(fs);
    match a
    case Assembled(last, request, raw, id, rest) =>
      fs != [] && (forall i :: 0 <= i < |hs| ==> (EndsLoop(hs[i]) <==> i == |hs| - 1))
      && last == hs[|hs|-1] && AskingSince(need, hs, request) && raw == buf + Bodies(fs)
      && Largest(id, msgID, hs) && rest == tail
    case Broken(e, id, rest) =>
      (forall i :: 0 <= i < |hs| ==> !EndsLoop(hs[i])) && BreaksOff(e, id, rest, msgID, hs, tail)
  }

  lemma LoopFront(a: Assembly, msgID: u32, buf: seq<byte>, need: Option<Header>, f: Fragment, fs: seq<Fragment>,
                  tail: seq<byte>)
    requires !EndsLoop(f.header)
    requires LoopFrom(a, Bumped(msgID, f.header), buf + f.body, Asking(need, f.header), fs, tail)
    ensures LoopFrom(a, msgID, buf, need, [f] + fs, tail)
  {
    hide BreaksOff, Largest, EndsLoop, AskingSince, Bumped, Asking, HeadersOf, Bodies;
    FragmentsFront(f, fs);
    var hs, all := HeadersOf(fs), [f.header] + HeadersOf(fs);
    assert all[0] == f.header && forall i :: 0 <= i < |hs| ==> all[i+1] == hs[i];
    match a
    case Assembled(_, request, raw, id, _) =>
      LargestFront(id, msgID, f.header, hs);
      AskingFront(need, f.header, hs, request);
      assert buf + f.body + Bodies(fs) == buf + (f.body + Bodies(fs));
    case Broken(e, id, rest) =>
      BreaksFront(e, id, rest, msgID, f.header, hs, tail);
  }

  /** The turn that the next bytes make, and what the loop does with it. */
  lemma NextTurn(msgID: u32, input: seq<byte>, buf: seq<byte>, need: Option<Header>)
      returns (f: Fragment, rest: seq<byte>)
    requires |input| >= 32
    requires var h := HeaderOf(input[..32]); Accepts(msgID, h) && (Announces(h) || |input[32..]| >= h.length)
    ensures f.header == HeaderOf(input[..32]) && Turn(f) && input == HeaderBytes(f.header) + f.body + rest
    ensures |rest| < |input|
    ensures Assemble(msgID, input, buf, need)
         == if EndsLoop(f.header) then Assembled(f.header, Asking(need, f.header), buf + f.body,
                                                 Bumped(msgID, f.header), rest)
            else Assemble(Bumped(msgID, f.header), rest, buf + f.body, Asking(need, f.header))
  {
    var h, more := HeaderOf(input[..32]), input[32..];
    HeaderInverse(input[..32]);
    AcceptsGoes(msgID, h);
    assert Assemble(msgID, input, buf, need) == Continue(msgID, h, more, buf, need);
    hide HeaderOf, HeaderBytes, Accepts, Announces, Closes, Bumped, Asking, Goes, Largest, EndsLoop, Assemble;
    var n: nat := if Announces(h) then 0 else h.length;
    f, rest := Fragment(h, more[..n]), more[n..];
    assert more[0..] == more && buf + [] == buf;
    if Announces(h) { NotLast(h); }
  }

  lemma {:induction false} ReadFrom(msgID: u32, input: seq<byte>, buf: seq<byte>, need: Option<Header>)
      returns (fs: seq<Fragment>, tail: seq<byte>)
    ensures input == FragmentsBytes(fs) + tail && (forall i :: 0 <= i < |fs| ==> Turn(fs[i]))
    ensures AllGo(msgID, HeadersOf(fs)) && LoopFrom(Assemble(msgID, input, buf, need), msgID, buf, need, fs, tail)
    decreases |input|
  {
    hide HeaderOf, HeaderBytes, Accepts, Announces, Closes, Bumped, Asking, AllGo, EndsLoop, Turn, Assemble,
         LoopFrom, FragmentsBytes, Bodies, HeadersOf;
    NoFragments();
    if |input| < 32 {
      fs, tail := [], input;
      StreamEnds(msgID, input, buf, need);
    } else if var h := HeaderOf(input[..32]); !Accepts(msgID, h) || (!Announces(h) && |input[32..]| < h.length) {
      fs, tail := [], input;
      BreaksHere(msgID, input, buf, need);
    } else {
      var f, rest := NextTurn(msgID, input, buf, need);
      var more: seq<Fragment> := [];
      tail := rest;
      if EndsLoop(f.header) {
        LoopCloses(msgID, buf, need, f, tail);
      } else {
        more, tail := ReadFrom(Bumped(msgID, f.header), rest, buf + f.body, Asking(need, f.header));
        LoopFront(Assemble(msgID, input, buf, need), msgID, buf, need, f, more, tail);
      }
      fs := [f] + more;
      FragmentsFront(f, more);
      AllGoFront(msgID, f.header, HeadersOf(more));
      Regrouped(HeaderBytes(f.header) + f.body, FragmentsBytes(more), tail);
    }
  }

  lemma Regrouped(a: seq<byte>, b: seq<byte>, c: seq<byte>)
    ensures a + (b + c) == a + b + c
    ensures b == [] ==> a + c == a + b + c
  {}

  lemma NotLast(h: Header)
    requires Announces(h) || !Closes(h)
    ensures !EndsLoop(h)
  {}

  lemma NoFragments()
    ensures FragmentsBytes([]) == [] && Bodies([]) == [] && HeadersOf([]) == [] && forall m :: AllGo(m, [])
  {}

  lemma StreamEnds(msgID: u32, input: seq<byte>, buf: seq<byte>, need: Option<Header>)
    requires |input| < 32
    ensures LoopFrom(Assemble(msgID, input, buf, need), msgID, buf, need, [], input)
    ensures FragmentsBytes([]) + input == input
  {}

  lemma BreaksHere(msgID: u32, input: seq<byte>, buf: seq<byte>, need: Option<Header>)
    requires |input| >= 32
    requires var h := HeaderOf(input[..32]); !Accepts(msgID, h) || (!Announces(h) && |input[32..]| < h.length)
    ensures LoopFrom(Assemble(msgID, input, buf, need), msgID, buf, need, [], input)
    ensures FragmentsBytes([]) + input == input
  {
    hide HeaderOf, Largest;
    var h := HeaderOf(input[..32]);
    AcceptsGoes(msgID, h);
    assert [] + [h] == [h];
    hide Goes;
  }

  lemma LoopCloses(msgID: u32, buf: seq<byte>, need: Option<Header>, f: Fragment, tail: seq<byte>)
    requires EndsLoop(f.header)
    ensures LoopFrom(Assembled(f.header, Asking(need, f.header), buf + f.body, Bumped(msgID, f.header), tail),
                     msgID, buf, need, [f] + [], tail)
  {
    hide Largest, EndsLoop;
    AcceptsGoes(msgID, f.header);
    FragmentsFront(f, []);
    var hs := [f.header];
    assert [f.header] + [] == hs && f.body + [] == f.body;
    if f.header.expectsReply == 1 { assert AskedAt(hs, 0, f.header); }
  }

  /**
   Any stream is a number of turns and what stands behind them, and the loop does with it what these turns say: it
   ends with the first turn that is the last of its message, or breaks off where a header is missing or refused or
   a body is short.
   */
  lemma StreamRead(msgID: u32, input: seq<byte>) returns (fs: seq<Fragment>, tail: seq<byte>)
    ensures input == FragmentsBytes(fs) + tail && (forall i :: 0 <= i < |fs| ==> Turn(fs[i]))
    ensures AllGo(msgID, HeadersOf(fs)) && LoopResult(Assemble(msgID, input, [], None), msgID, fs, tail)
  {
    hide Assemble, Largest, EndsLoop, BreaksOff, AllGo, FragmentsBytes, HeadersOf, Bodies;
    fs, tail := ReadFrom(msgID, input, [], None);
  }

  // ---------------------------------------------------------------------------------------------
  // Which header is answered
  // ---------------------------------------------------------------------------------------------

  /** The headers one receive accepts, in order, even if it breaks off later. */
  function HeadersRead(msgID: u32, input: seq<byte>): seq<Header>
    decreases |input|
  {
    if |input| < HEADER_SIZE then []
    else
      var h, rest := HeaderOf(input[..HEADER_SIZE]), input[HEADER_SIZE..];
      if !Accepts(msgID, h) then []
      else [h] +
           if Announces(h) then HeadersRead(Bumped(msgID, h), rest)
           else if |rest| < h.length || Closes(h) then []
           else HeadersRead(Bumped(msgID, h), rest[h.length..])
  }

  function LastAsked(hs: seq<Header>): Option<Header> {
    if hs == [] then None
    else if hs[|hs|-1].expectsReply == 1 then Some(hs[|hs|-1])
    else LastAsked(hs[..|hs|-1])
  }

  lemma {:induction false} LastAskedFront(h: Header, hs: seq<Header>)
    ensures LastAsked([h] + hs)
         == if LastAsked(hs).Some? then LastAsked(hs) else if h.expectsReply == 1 then Some(h) else None
    decreases |hs|
  {
    var all := [h] + hs;
    if hs == [] {
      assert all == [h] && all[..0] == [];
    } else {
      assert all[..|all|-1] == [h] + hs[..|hs|-1];
      LastAskedFront(h, hs[..|hs|-1]);
    }
  }

  lemma {:induction false} LastAskedIs(hs: seq<Header>)
    ensures LastAsking(LastAsked(hs), hs)
    decreases |hs|
  {
    if hs != [] {
      var n := |hs| - 1;
      LastAskedIs(hs[..n]);
      if hs[n].expectsReply == 1 {
        assert AskedAt(hs, n, hs[n]);
      } else if LastAsked(hs).Some? {
        var i :| 0 <= i < n && AskedAt(hs[..n], i, LastAsked(hs).value);
        assert AskedAt(hs, i, LastAsked(hs).value);
      }
    }
  }

  /** The request kept by the loop is the last header read that asks, or the one it had before. */
  lemma {:induction false} AssembleAsks(msgID: u32, input: seq<byte>, buf: seq<byte>, need: Option<Header>)
    ensures var a, last := Assemble(msgID, input, buf, need), LastAsked(HeadersRead(msgID, input));
            a.Assembled? ==> a.need == if last.Some? then last else need
    decreases |input|
  {
    hide HeaderOf, LastAsked, Bumped, Accepts, Announces, Closes;
    if |input| >= HEADER_SIZE {
      var h, rest := HeaderOf(input[..HEADER_SIZE]), input[HEADER_SIZE..];
      if Accepts(msgID, h) {
        if Announces(h) {
          AssembleAsks(Bumped(msgID, h), rest, buf, Asking(need, h));
          LastAskedFront(h, HeadersRead(Bumped(msgID, h), rest));
        } else if |rest| >= h.length && !Closes(h) {
          AssembleAsks(Bumped(msgID, h), rest[h.length..], buf + rest[..h.length], Asking(need, h));
          LastAskedFront(h, HeadersRead(Bumped(msgID, h), rest[h.length..]));
        } else {
          LastAskedFront(h, []);
          assert LastAsked([]) == None by { NoneAsked(); }
        }
      }
    }
  }

  lemma NoneAsked()
    ensures LastAsked([]) == None
  {}

  lemma {:induction false} AskingLast(need: Option<Header>, hs: seq<Header>)
    ensures AskingAll(need, hs) == if LastAsked(hs).Some? then LastAsked(hs) else need
    decreases |hs|
  {
    if hs != [] {
      AskingLast(Asking(need, hs[0]), hs[1..]);
      LastAskedFront(hs[0], hs[1..]);
      assert hs == [hs[0]] + hs[1..];
    }
  }

  // ---------------------------------------------------------------------------------------------
  // The payload
  // ---------------------------------------------------------------------------------------------

  /** The arguments and the object of a message: each part that is there is decoded on its own. */
  predicate AuxSays(d: Decoder, aux: seq<byte>, values: seq<Value>) {
    if aux == [] then values == [] else Parse(d, aux) == Items(values)
  }

  predicate ObjectSays(d: Decoder, obj: seq<byte>, v: Value) {
    if obj == [] then v == Nil else d(obj) == Ok(v)
  }

  /** What a message of these two parts comes to. The object is looked at once the arguments have been read. */
  ghost predicate PartsSay(d: Decoder, aux: seq<byte>, obj: seq<byte>, m: Decoded) {
    match m
    case Message(r) => AuxSays(d, aux, r.aux) && ObjectSays(d, obj, r.obj)
    case Refused(e) =>
      (aux != [] && Parse(d, aux).Failed? && e == BadAux(Parse(d, aux).fault) && e.fault in {Eof, TooShort, BadPlist})
      || ((exists values :: AuxSays(d, aux, values)) && obj != [] && d(obj) == PlistError && e == BadObject)
    case Crash =>
      (aux != [] && Parse(d, aux).Failed? && Parse(d, aux).fault in {Panicking, Overflow})
      || ((exists values :: AuxSays(d, aux, values)) && obj != [] && d(obj) in {Panic, StackOverflow})
  }

  lemma PartsDecoded(d: Decoder, aux: seq<byte>, obj: seq<byte>, m: Decoded)
    ensures DecodeParts(d, aux, obj) == m <==> PartsSay(d, aux, obj, m)
  {
    hide Parse;
    if aux == [] { assert AuxSays(d, aux, []); }
    if aux != [] && Parse(d, aux).Items? { assert AuxSays(d, aux, Parse(d, aux).values); }
  }

  predicate Uncompressed(flags: u32) { flags / 0x1000 % 0x100 == 0 }

  /**
   The payload of a message, for any announced lengths: n for the arguments, total for both parts. A part that is not
   all there counts as missing; lengths that contradict each other are a panic, and so are those that leave no room on
   32 or on 63 bits.
   */
  lemma PayloadTaken(d: Decoder, flags: u32, n: u32, total: u64, body: seq<byte>)
    requires |body| < TWO63 - 16
    ensures var raw := PayloadBytes(Payload(flags, n, total)) + body;
            DecodePayload(d, raw)
            == if !Uncompressed(flags) then Refused(Compressed)
               else if n >= TWO32 - 16 || total >= TWO63 - 16 || (total < n && total <= |body|) then Crash
               else DecodeParts(d, if n <= |body| then body[..n] else [],
                                if n <= total <= |body| then body[n..total] else [])
  {
    hide PayloadBytes, PayloadOf, DecodeParts;
    var p := Payload(flags, n, total);
    var raw := PayloadBytes(p) + body;
    assert raw[..16] == PayloadBytes(p);
    PayloadRoundTrip(p);
    if Uncompressed(flags) {
      LengthsTaken(raw, n, total, body);
      hide GuardedSlice;
    }
  }

  lemma Unwrapped(x: nat, m: nat)
    requires x < m
    ensures x % m == x
  {}

  lemma Wrapped(x: nat, m: nat)
    requires m <= x < 2 * m
    ensures x % m == x - m
  {
    assert x == (x - m) + m;
  }

  /** Lengths that leave room. */
  lemma PartsTaken(raw: seq<byte>, n: nat, total: nat, body: seq<byte>)
    requires |raw| == 16 + |body| && raw[16..] == body && n < TWO32 - 16 && total < TWO63 - 16
    ensures var aux, obj := GuardedSlice(raw, 16, 16 + n), GuardedSlice(raw, 16 + n, 16 + total);
            aux == Some(if n <= |body| then body[..n] else [])
            && obj == if total < n && total <= |body| then None
                      else Some(if n <= total <= |body| then body[n..total] else [])
  {
    if n <= |body| { assert raw[16..16 + n] == raw[16..][..n]; }
    if n <= total <= |body| { assert raw[16 + n..16 + total] == raw[16..][n..total]; }
  }

  lemma LengthsTaken(raw: seq<byte>, n: u32, total: u64, body: seq<byte>)
    requires |raw| == 16 + |body| && raw[16..] == body && |body| < TWO63 - 16
    ensures var auxEnd: u64 := (PAYLOAD_SIZE + n) % TWO32;
            var aux := GuardedSlice(raw, PAYLOAD_SIZE, auxEnd);
            var obj := GuardedSlice(raw, auxEnd, (auxEnd + total - n) % TWO64);
            if n >= TWO32 - 16 || total >= TWO63 - 16 || (total < n && total <= |body|) then aux.None? || obj.None?
            else aux == Some(if n <= |body| then body[..n] else [])
                 && obj == Some(if n <= total <= |body| then body[n..total] else [])
  {
    if n >= TWO32 - 16 {
      Wrapped(16 + n, TWO32);
    } else {
      Unwrapped(16 + n, TWO32);
      var end := 16 + n + total - n;
      assert end == 16 + total;
      if end < TWO64 { Unwrapped(end, TWO64); } else { Wrapped(end, TWO64); }
      if total < TWO63 - 16 {
        PartsTaken(raw, n, total, body);
        hide GuardedSlice;
      }
    }
  }

  /** Only a payload without a whole header is short. */
  lemma ShortPayloadIff(d: Decoder, raw: seq<byte>)
    ensures DecodePayload(d, raw) == Refused(ShortPayload) <==> |raw| < 16
  {
    hide Parse, GuardedSlice, PayloadOf, Compression;
  }

  /** A message whose lengths are right, all four cases of parts there and missing: it says what its parts say. */
  lemma MessageSays(d: Decoder, flags: u32, aux: seq<byte>, obj: seq<byte>, m: Decoded)
    requires Uncompressed(flags) && 16 + |aux| + |obj| < TWO32
    ensures var raw := PayloadBytes(Payload(flags, |aux|, |aux| + |obj|)) + aux + obj;
            DecodePayload(d, raw) == m <==> PartsSay(d, aux, obj, m)
  {
    hide PayloadBytes, DecodePayload, DecodeParts, PartsSay;
    var p, body := Payload(flags, |aux|, |aux| + |obj|), aux + obj;
    assert PayloadBytes(p) + aux + obj == PayloadBytes(p) + body;
    assert body[..|aux|] == aux && body[|aux|..|body|] == obj;
    PayloadTaken(d, flags, |aux|, |aux| + |obj|, body);
    PartsDecoded(d, aux, obj, m);
  }
}
