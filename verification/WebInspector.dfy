/**
 Chunking and reassembly of pkg/libimobiledevice/webinspector.go. The chunk a packet carries is the value
 under one of two keys; a lookup of the other key finds the empty string.
 */
module WebInspectors {
  import opened Bytes
  import opened Unarchiver

  datatype Chunk = Partial(text: seq<byte>) | Final(text: seq<byte>) | Unsplit(packet: seq<byte>)

  function FinalText(c: Chunk): seq<byte> { if c.Final? then c.text else [] }
  function PartialText(c: Chunk): seq<byte> { if c.Partial? then c.text else [] }

  function Join(texts: seq<seq<byte>>): seq<byte> {
    if texts == [] then [] else Join(texts[..|texts|-1]) + texts[|texts|-1]
  }

  function Texts(cs: seq<Chunk>): (r: seq<seq<byte>>)
    requires forall i :: 0 <= i < |cs| ==> !cs[i].Unsplit?
    ensures |r| == |cs|
  {
    seq(|cs|, i requires 0 <= i < |cs| => cs[i].text)
  }

  predicate AllPartial(cs: seq<Chunk>, max: nat) {
    forall i :: 0 <= i < |cs| ==> cs[i].Partial? && |cs[i].text| == max
  }

  /**
   The chunks of a packet: partial ones of exactly the maximal length, then one final chunk that is neither
   empty nor longer; together they are the packet. An empty packet has none.
   */
  predicate ChunksOf(cs: seq<Chunk>, packet: seq<byte>, max: nat) {
    if packet == [] then cs == []
    else
      cs != [] && var n := |cs| - 1;
      AllPartial(cs[..n], max) && cs[n].Final? && 0 < |cs[n].text| <= max
      && Join(Texts(cs[..n])) + cs[n].text == packet
  }

  class WebInspectorClient {
    var msgBuffer: seq<seq<byte>>
    var maxPlistLen: nat
    var partialsSupported: bool
    var sent: seq<Chunk>
    var incoming: seq<Chunk>

    constructor (stream: seq<Chunk>)
      ensures msgBuffer == [] && maxPlistLen == 7586 && !partialsSupported && sent == [] && incoming == stream
    {
      msgBuffer, maxPlistLen, partialsSupported, sent, incoming := [], 7586, false, [], stream;
    }

    /** SendPacket; the write of chunk number `broken` fails, if there are so many. */
    method SendPacket(raw: seq<byte>, broken: nat) returns (ok: bool)
      requires partialsSupported ==> maxPlistLen > 0
      modifies this`sent
      ensures !partialsSupported ==> ok == (broken > 0) && sent == old(sent) + if ok then [Unsplit(raw)] else []
      ensures partialsSupported ==> exists cs ::
                ChunksOf(cs, raw, maxPlistLen) && ok == (|cs| <= broken)
                && sent == old(sent) + if |cs| <= broken then cs else cs[..broken]
    {
      hide ChunksOf, Join, Texts;
      NoChunks(maxPlistLen);
      if !partialsSupported {
        if broken == 0 { return false; }
        sent := sent + [Unsplit(raw)];
        return true;
      }
      ghost var cs: seq<Chunk> := [];
      var i, count := 0, 0;
      while i < |raw|
        invariant AllPartial(cs, maxPlistLen) && |cs| == count <= broken && i == |cs| * maxPlistLen
        invariant i <= |raw| && (i == |raw| ==> raw == [])
        invariant Join(Texts(cs)) == raw[..i]
        invariant sent == old(sent) + cs
        decreases |raw| - i
      {
        if count == broken {
          ghost var all := ChunksFrom(cs, raw, i, maxPlistLen);
          assert cs == all[..broken];
          return false;
        }
        if |raw| - i > maxPlistLen {
          var text := raw[i..i + maxPlistLen];
          JoinMore(cs, Partial(text));
          assert raw[..i] + text == raw[..i + maxPlistLen];
          sent, cs := sent + [Partial(text)], cs + [Partial(text)];
        } else {
          var text := raw[i..];
          ClosingChunk(cs, raw, i, maxPlistLen);
          sent := sent + [Final(text)];
          assert sent == old(sent) + (cs + [Final(text)]);
          return true;
        }
        i, count := i + maxPlistLen, count + 1;
      }
      assert sent == old(sent) + [];
      ok := true;
    }

    /** ReceiveWebkitMsg with partial support on; None is the failed receive when nothing more arrives. */
    method ReceiveWebkitMsg() returns (r: Option<seq<byte>>)
      modifies this`msgBuffer, this`incoming
      ensures (r, msgBuffer, incoming) == Reassemble(old(msgBuffer), old(incoming))
      decreases |incoming|
    {
      if incoming == [] { return None; }
      var packet := incoming[0];
      incoming := incoming[1..];
      var value := FinalText(packet);
      var resultData: seq<byte> := [];
      if value != [] {
        if |msgBuffer| > 0 {
          resultData := Join(msgBuffer) + value;
          msgBuffer := [];
        }
        return Some(resultData);
      }
      value := PartialText(packet);
      msgBuffer := msgBuffer + [value];
      r := ReceiveWebkitMsg();
    }
  }

  lemma JoinMore(cs: seq<Chunk>, c: Chunk)
    requires (forall i :: 0 <= i < |cs| ==> !cs[i].Unsplit?) && !c.Unsplit?
    ensures Join(Texts(cs + [c])) == Join(Texts(cs)) + c.text
  {
    assert Texts(cs + [c])[..|cs|] == Texts(cs);
  }

  lemma NoChunks(max: nat)
    ensures ChunksOf([], [], max) && Texts([]) == [] && Join([]) == []
  {}

  /** The chunk that completes a packet of which the first i bytes are out. */
  lemma ClosingChunk(cs: seq<Chunk>, raw: seq<byte>, i: nat, max: nat)
    requires AllPartial(cs, max) && i < |raw| <= i + max && Join(Texts(cs)) == raw[..i]
    ensures ChunksOf(cs + [Final(raw[i..])], raw, max)
  {
    assert (cs + [Final(raw[i..])])[..|cs|] == cs && raw[..i] + raw[i..] == raw;
  }

  /** What is out already can be completed. */
  lemma {:induction false} ChunksFrom(cs: seq<Chunk>, raw: seq<byte>, i: nat, max: nat) returns (all: seq<Chunk>)
    requires max > 0 && AllPartial(cs, max) && i < |raw| && Join(Texts(cs)) == raw[..i]
    ensures ChunksOf(all, raw, max) && |cs| < |all| && all[..|cs|] == cs
    decreases |raw| - i
  {
    hide ChunksOf, Join, Texts;
    if |raw| <= i + max {
      ClosingChunk(cs, raw, i, max);
      all := cs + [Final(raw[i..])];
    } else {
      var text := raw[i..i + max];
      JoinMore(cs, Partial(text));
      assert raw[..i] + text == raw[..i + max];
      all := ChunksFrom(cs + [Partial(text)], raw, i + max, max);
      assert all[..|cs|] == all[..|cs| + 1][..|cs|];
    }
  }

  /** What is returned, what is left in msgBuffer, and what is left to read. */
  function Reassemble(buffer: seq<seq<byte>>, incoming: seq<Chunk>): (Option<seq<byte>>, seq<seq<byte>>, seq<Chunk>)
    decreases |incoming|
  {
    if incoming == [] then (None, buffer, [])
    else if FinalText(incoming[0]) != [] then
      (Some(if buffer == [] then [] else Join(buffer) + FinalText(incoming[0])), [], incoming[1..])
    else Reassemble(buffer + [PartialText(incoming[0])], incoming[1..])
  }

  lemma {:induction false} ReassembleParts(buffer: seq<seq<byte>>, cs: seq<Chunk>, rest: seq<Chunk>, max: nat)
    requires AllPartial(cs, max)
    ensures Reassemble(buffer, cs + rest) == Reassemble(buffer + Texts(cs), rest)
    decreases |cs|
  {
    if cs == [] {
      assert cs + rest == rest && buffer + Texts(cs) == buffer;
    } else {
      assert (cs + rest)[1..] == cs[1..] + rest;
      assert Reassemble(buffer, cs + rest) == Reassemble(buffer + [cs[0].text], cs[1..] + rest);
      hide Reassemble;
      ReassembleParts(buffer + [cs[0].text], cs[1..], rest, max);
      assert buffer + [cs[0].text] + Texts(cs[1..]) == buffer + Texts(cs);
    }
  }

  function PartialTexts(cs: seq<Chunk>): (r: seq<seq<byte>>)
    ensures |r| == |cs|
  {
    seq(|cs|, i requires 0 <= i < |cs| => if cs[i].Partial? then cs[i].text else [])
  }

  predicate Closing(c: Chunk) { c.Final? && c.text != [] }

  /**
   Any chunks, from any buffer: the first final one with a text in it closes the message, what was buffered by then
   stands in front of it, and the buffer is empty; if there is none, everything stays in the buffer.
   */
  lemma {:induction false} ReassembleAny(buffer: seq<seq<byte>>, cs: seq<Chunk>, rest: seq<Chunk>)
    requires forall i :: 0 <= i < |cs| ==> !Closing(cs[i])
    ensures rest == [] ==> Reassemble(buffer, cs + rest) == (None, buffer + PartialTexts(cs), [])
    ensures rest != [] && Closing(rest[0]) ==>
              Reassemble(buffer, cs + rest)
              == (Some(if buffer + PartialTexts(cs) == [] then [] else Join(buffer + PartialTexts(cs)) + rest[0].text),
                  [], rest[1..])
    decreases |cs|
  {
    if cs == [] {
      assert cs + rest == rest && buffer + PartialTexts(cs) == buffer;
    } else {
      assert (cs + rest)[1..] == cs[1..] + rest;
      var text := if cs[0].Partial? then cs[0].text else [];
      assert Reassemble(buffer, cs + rest) == Reassemble(buffer + [text], cs[1..] + rest);
      hide Reassemble, Join;
      ReassembleAny(buffer + [text], cs[1..], rest);
      assert buffer + [text] + PartialTexts(cs[1..]) == buffer + PartialTexts(cs);
    }
  }

  lemma {:induction false} JoinAppend(a: seq<seq<byte>>, b: seq<seq<byte>>)
    ensures Join(a + b) == Join(a) + Join(b)
    decreases |b|
  {
    if b == [] {
      assert a + b == a;
    } else {
      var n := |b| - 1;
      assert (a + b)[..|a| + n] == a + b[..n];
      JoinAppend(a, b[..n]);
    }
  }

  lemma LastChunk(buffer: seq<seq<byte>>, c: Chunk, rest: seq<Chunk>)
    requires c.Final? && c.text != []
    ensures Reassemble(buffer, [c] + rest) == (Some(if buffer == [] then [] else Join(buffer) + c.text), [], rest)
  {
    assert ([c] + rest)[1..] == rest;
  }

  /** With something in the buffer already, a packet's chunks complete it, and the buffer is emptied. */
  lemma Completed(buffer: seq<seq<byte>>, cs: seq<Chunk>, packet: seq<byte>, max: nat, rest: seq<Chunk>)
    requires ChunksOf(cs, packet, max) && packet != []
    ensures Reassemble(buffer, cs + rest)
         == (Some(if buffer == [] && |cs| == 1 then [] else Join(buffer) + packet), [], rest)
  {
    hide Reassemble, Join;
    var n, last := |cs| - 1, cs[|cs|-1];
    var buffer' := buffer + Texts(cs[..n]);
    calc {
      Reassemble(buffer, cs + rest);
      { assert cs + rest == cs[..n] + ([last] + rest); }
      Reassemble(buffer, cs[..n] + ([last] + rest));
      { ReassembleParts(buffer, cs[..n], [last] + rest, max); }
      Reassemble(buffer', [last] + rest);
      { LastChunk(buffer', last, rest); }
      (Some(if buffer' == [] then [] else Join(buffer') + last.text), [], rest);
    }
    JoinAppend(buffer, Texts(cs[..n]));
    assert Join(buffer') + last.text == Join(buffer) + (Join(Texts(cs[..n])) + last.text);
    assert |buffer'| == |buffer| + n;
  }

  lemma {:induction false} JoinLength(cs: seq<Chunk>, max: nat)
    requires AllPartial(cs, max)
    ensures |Join(Texts(cs))| == |cs| * max
    decreases |cs|
  {
    if cs != [] {
      var n := |cs| - 1;
      assert cs == cs[..n] + [cs[n]];
      JoinMore(cs[..n], cs[n]);
      JoinLength(cs[..n], max);
    }
  }

  lemma ReassembleShrinks(buffer: seq<seq<byte>>, incoming: seq<Chunk>)
    ensures Reassemble(buffer, incoming).0.Some? ==> |Reassemble(buffer, incoming).2| < |incoming|
    decreases |incoming|
  {}

  /** What a receiver with an empty buffer makes of the chunks of one packet. */
  function Rebuilt(packet: seq<byte>, max: nat): seq<byte> { if |packet| > max then packet else [] }

  function RebuiltAll(packets: seq<seq<byte>>, max: nat): (r: seq<Option<seq<byte>>>)
    ensures |r| == |packets|
  {
    seq(|packets|, i requires 0 <= i < |packets| => Some(Rebuilt(packets[i], max)))
  }

  lemma PacketRebuilt(cs: seq<Chunk>, packet: seq<byte>, max: nat, rest: seq<Chunk>)
    requires ChunksOf(cs, packet, max) && packet != [] && max > 0
    ensures Reassemble([], cs + rest) == (Some(Rebuilt(packet, max)), [], rest)
  {
    hide Reassemble;
    Completed([], cs, packet, max, rest);
    var n := |cs| - 1;
    JoinLength(cs[..n], max);
    if n > 0 { assert n * max >= max; }
    assert Join([]) + packet == packet;
  }

  /**
   From an empty buffer the receiver rebuilds a packet from its chunks, and reads no chunk more, if and only
   if the packet is longer than one chunk. A packet of one chunk comes out as the empty string; an empty
   packet was never sent.
   */
  lemma ChunkRoundTrip(cs: seq<Chunk>, packet: seq<byte>, max: nat, rest: seq<Chunk>)
    requires ChunksOf(cs, packet, max) && max > 0
    ensures Reassemble([], cs + rest) == (Some(packet), [], rest) <==> |packet| > max
  {
    if packet == [] {
      assert cs + rest == rest;
      ReassembleShrinks([], rest);
    } else {
      PacketRebuilt(cs, packet, max, rest);
    }
  }

  function Concat(css: seq<seq<Chunk>>): seq<Chunk> {
    if css == [] then [] else css[0] + Concat(css[1..])
  }

  /** n receives in a row, and what they leave in msgBuffer and unread. */
  function ReassembleTimes(buffer: seq<seq<byte>>, incoming: seq<Chunk>, n: nat)
      : (seq<Option<seq<byte>>>, seq<seq<byte>>, seq<Chunk>)
    decreases n
  {
    if n == 0 then ([], buffer, incoming)
    else
      var (first, buffer', rest) := Reassemble(buffer, incoming);
      var (more, left, unread) := ReassembleTimes(buffer', rest, n - 1);
      ([first] + more, left, unread)
  }

  /** Packets sent one after the other come out one by one, none of them in pieces or run into the next. */
  lemma {:induction false} ChunkRun(css: seq<seq<Chunk>>, packets: seq<seq<byte>>, max: nat, rest: seq<Chunk>)
    requires |css| == |packets| && max > 0
    requires forall i :: 0 <= i < |css| ==> packets[i] != [] && ChunksOf(css[i], packets[i], max)
    ensures ReassembleTimes([], Concat(css) + rest, |css|)
         == (RebuiltAll(packets, max), [], rest)
    decreases |css|
  {
    hide Reassemble, ChunksOf, Rebuilt;
    if css == [] {
      assert Concat(css) + rest == rest;
    } else {
      var tail := Concat(css[1..]) + rest;
      assert Concat(css) + rest == css[0] + tail;
      PacketRebuilt(css[0], packets[0], max, tail);
      ChunkRun(css[1..], packets[1..], max, rest);
      assert RebuiltAll(packets, max) == [Some(Rebuilt(packets[0], max))] + RebuiltAll(packets[1..], max);
    }
  }

  /** There is only one way to cut a packet: the number of chunks and every text are determined. */
  lemma {:induction false} ChunksUnique(cs: seq<Chunk>, cs': seq<Chunk>, packet: seq<byte>, max: nat)
    requires max > 0 && ChunksOf(cs, packet, max) && ChunksOf(cs', packet, max)
    ensures cs == cs'
  {
    if packet != [] {
      var n, n' := |cs| - 1, |cs'| - 1;
      JoinLength(cs[..n], max);
      JoinLength(cs'[..n'], max);
      SameCount(n, |cs[n].text|, n', |cs'[n'].text|, max);
      var a, b := Join(Texts(cs[..n])), Join(Texts(cs'[..n']));
      assert a == packet[..n * max] == b;
      assert cs[n].text == packet[n * max..] == cs'[n'].text;
      PartsUnique(cs[..n], cs'[..n], max);
      assert cs == cs[..n] + [cs[n]] && cs' == cs'[..n] + [cs'[n]];
    }
  }

  lemma SameCount(n: nat, a: nat, n': nat, a': nat, max: nat)
    requires n * max + a == n' * max + a' && 0 < a <= max && 0 < a' <= max
    ensures n == n'
  {
    if n < n' {
      MultiplesApart(n, n', max);
    } else if n' < n {
      MultiplesApart(n', n, max);
    }
  }

  lemma {:induction false} MultiplesApart(n: nat, n': nat, max: nat)
    requires n < n'
    ensures n' * max >= n * max + max
    decreases n'
  {
    assert n' * max == (n' - 1) * max + max;
    if n < n' - 1 { MultiplesApart(n, n' - 1, max); }
  }

  lemma {:induction false} PartsUnique(cs: seq<Chunk>, cs': seq<Chunk>, max: nat)
    requires |cs| == |cs'| && AllPartial(cs, max) && AllPartial(cs', max) && Join(Texts(cs)) == Join(Texts(cs'))
    ensures cs == cs'
    decreases |cs|
  {
    if cs != [] {
      var n := |cs| - 1;
      assert cs == cs[..n] + [cs[n]] && cs' == cs'[..n] + [cs'[n]];
      JoinMore(cs[..n], cs[n]);
      JoinMore(cs'[..n], cs'[n]);
      JoinLength(cs[..n], max);
      JoinLength(cs'[..n], max);
      var a, b := Join(Texts(cs)), Join(Texts(cs'));
      assert a[..n * max] == Join(Texts(cs[..n])) && b[..n * max] == Join(Texts(cs'[..n]));
      assert a[n * max..] == cs[n].text && b[n * max..] == cs'[n].text;
      PartsUnique(cs[..n], cs'[..n], max);
    }
  }
}
