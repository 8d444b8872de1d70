/** The auxiliary argument buffer of pkg/libimobiledevice/auxbuffer.go: a tagged writer and its parser. */
module AuxBuffers {
  import opened Bytes
  import opened GoValues
  import opened Archiver
  import opened KeyedArchive

  /** Whatever decodes the archived objects in a buffer. */
  type Decoder = seq<byte> -> Outcome

  /** One append: an archived object, or an integer of one of two widths. */
  datatype Item = Object(blob: seq<byte>) | Int32(n: i32) | Int64(m: i64)

  function Encoded(item: Item): seq<byte> {
    match item
    case Object(blob) => Le32(10) + Le32(2) + Le32(|blob| % TWO32) + blob
    case Int32(n) => Le32(10) + Le32(3) + Le32(ToU32(n))
    case Int64(n) => Le32(10) + Le32(4) + Le64(ToU64(n))
  }

  function Body(items: seq<Item>): seq<byte> {
    if items == [] then [] else Body(items[..|items|-1]) + Encoded(items[|items|-1])
  }

  /** The whole buffer: a magic number, the length of the body, the body. */
  function Framed(body: seq<byte>): (r: seq<byte>)
    ensures |r| == 16 + |body|
  {
    Le64(0x01f0) + Le64(|body| % TWO64) + body
  }

  lemma ObjectBytes(buf: seq<byte>, blob: seq<byte>)
    ensures buf + Le32(10) + Le32(2) + Le32(|blob| % TWO32) + blob == buf + Encoded(Object(blob))
  {
    hide Le32;
  }

  class AuxBuffer {
    var buf: seq<byte>

    constructor ()
      ensures buf == []
    {
      buf := [];
    }

    method AppendUInt32(v: u32)
      modifies this
      ensures buf == old(buf) + Le32(v)
    {
      buf := buf + Le32(v);
    }

    method AppendUInt64(v: u64)
      modifies this
      ensures buf == old(buf) + Le64(v)
    {
      buf := buf + Le64(v);
    }

    /** nskeyedarchiver.Marshal may panic, and then nothing is written. */
    method AppendObject(p: Plist, v: Value) returns (ok: bool, ghost t: seq<Value>)
      modifies this
      ensures ok <==> !Crashes(v)
      ensures !ok ==> buf == old(buf)
      ensures ok ==> TableOf(v, t) && buf == old(buf) + Encoded(Object(p.marshal(ObjectArchive(t, 1))))
    {
      var raw;
      raw, t := Marshal(p, v);
      if raw.None? { return false, t; }
      hide TableOf, Le32, Encoded;
      AppendUInt32(10);
      AppendUInt32(2);
      AppendUInt32(|raw.value| % TWO32);
      buf := buf + raw.value;
      ObjectBytes(old(buf), raw.value);
      ok := true;
    }

    method AppendInt32(v: i32)
      modifies this
      ensures buf == old(buf) + Encoded(Int32(v))
    {
      hide Le32;
      AppendUInt32(10);
      AppendUInt32(3);
      AppendUInt32(ToU32(v));
      assert buf == old(buf) + Encoded(Int32(v));
    }

    method AppendInt64(v: i64)
      modifies this
      ensures buf == old(buf) + Encoded(Int64(v))
    {
      hide Le32, Le64;
      AppendUInt32(10);
      AppendUInt32(4);
      AppendUInt64(ToU64(v));
      assert buf == old(buf) + Encoded(Int64(v));
    }

    method Bytes() returns (b: seq<byte>)
      ensures b == Framed(buf)
    {
      b := Le64(0x01f0) + Le64(|buf| % TWO64);
      b := b + buf;
    }
  }

  // ---------------------------------------------------------------------------------------------
  // The parser
  // ---------------------------------------------------------------------------------------------

  datatype Fault = Eof | TooShort | BadPlist | Panicking | Overflow

  datatype Parsed = Items(values: seq<Value>) | Failed(fault: Fault)

  function FaultOf(o: Outcome): Fault
    requires !o.Ok?
  {
    match o
    case Panic => Panicking
    case StackOverflow => Overflow
    case _ => BadPlist
  }

  function After(values: seq<Value>, rest: Parsed): Parsed {
    if rest.Items? then Items(values + rest.values) else rest
  }

  /** bytes.Reader.Read into a slice of n bytes: what is left may be less, and the rest stays zero. */
  function Filled(b: seq<byte>, n: nat): (r: seq<byte>)
    ensures |r| == n
  {
    if n <= |b| then b[..n] else b + seq(n - |b|, i => 0)
  }

  function Dropped(b: seq<byte>, n: nat): (r: seq<byte>)
    ensures |r| <= |b|
  {
    if n <= |b| then b[n..] else []
  }

  /**
   The values in the bytes still to be read. An entry is a flag, a type, and what the type calls for;
   a type that is not known has nothing behind it, and neither has a dictionary key (10).
   */
  function ParseItems(d: Decoder, b: seq<byte>): Parsed
    decreases |b|
  {
    if |b| == 0 then Items([])
    else if |b| < 8 then Failed(Eof)
    else
      var typ, rest := FromLe32(b[4..8]), b[8..];
      if typ == 2 then
        if |rest| <= 4 then Failed(Eof)
        else
          var n, body := FromLe32(rest[..4]), rest[4..];
          var o := d(Filled(body, n));
          if o.Ok? then After([o.value], ParseItems(d, Dropped(body, n))) else Failed(FaultOf(o))
      else if typ == 3 || typ == 5 then
        if |rest| < 4 then Failed(Eof)
        else After([Int(ToI32(FromLe32(rest[..4])))], ParseItems(d, rest[4..]))
      else if typ == 4 || typ == 6 then
        if |rest| < 8 then Failed(Eof)
        else After([Int(ToI64(FromLe64(rest[..8])))], ParseItems(d, rest[8..]))
      else ParseItems(d, rest)
  }

  function Parse(d: Decoder, b: seq<byte>): Parsed {
    if |b| < 16 then Failed(Eof)
    else if FromLe64(b[8..16]) > |b| - 16 then Failed(TooShort)
    else ParseItems(d, b[16..])
  }

  /** UnmarshalAuxBuffer; each turn of its loop consumes at least eight bytes or returns. */
  method UnmarshalAuxBuffer(d: Decoder, b: seq<byte>) returns (r: Parsed)
    ensures r == Parse(d, b)
  {
    if |b| < 16 { return Failed(Eof); }
    var pkgLen := FromLe64(b[8..16]);
    if pkgLen > |b| - 16 { return Failed(TooShort); }
    var ret: seq<Value> := [];
    var reader := b[16..];
    while |reader| > 0
      invariant After(ret, ParseItems(d, reader)) == ParseItems(d, b[16..])
      decreases |reader|
    {
      if |reader| < 8 { return Failed(Eof); }
      ghost var was := reader;
      var typ := FromLe32(reader[4..8]);
      reader := reader[8..];
      if typ == 2 {
        if |reader| < 4 { return Failed(Eof); }
        var l := FromLe32(reader[..4]);
        reader := reader[4..];
        if |reader| == 0 { return Failed(Eof); }
        var plistBuf := Filled(reader, l);
        reader := Dropped(reader, l);
        var o := d(plistBuf);
        if !o.Ok? { return Failed(FaultOf(o)); }
        AfterAfter(ret, [o.value], ParseItems(d, reader));
        ret := ret + [o.value];
      } else if typ == 3 || typ == 5 {
        if |reader| < 4 { return Failed(Eof); }
        var i := Int(ToI32(FromLe32(reader[..4])));
        reader := reader[4..];
        AfterAfter(ret, [i], ParseItems(d, reader));
        ret := ret + [i];
      } else if typ == 4 || typ == 6 {
        if |reader| < 8 { return Failed(Eof); }
        var i := Int(ToI64(FromLe64(reader[..8])));
        reader := reader[8..];
        AfterAfter(ret, [i], ParseItems(d, reader));
        ret := ret + [i];
      }
    }
    r := Items(ret);
  }

  lemma AfterAfter(a: seq<Value>, b: seq<Value>, rest: Parsed)
    ensures After(a, After(b, rest)) == After(a + b, rest)
  {
    if rest.Items? { assert a + (b + rest.values) == a + b + rest.values; }
  }

  // ---------------------------------------------------------------------------------------------
  // The parser undoes the writer
  // ---------------------------------------------------------------------------------------------

  /** An appended item the parser can read back: an object has a blob that is neither empty nor too long. */
  predicate Readable(d: Decoder, item: Item) {
    item.Object? ==> 0 < |item.blob| < TWO32 && d(item.blob).Ok?
  }

  function ValueOf(d: Decoder, item: Item): Value
    requires Readable(d, item)
  {
    match item
    case Object(blob) => d(blob).value
    case Int32(n) => Int(n)
    case Int64(n) => Int(n)
  }

  predicate AllReadable(d: Decoder, items: seq<Item>) {
    forall i :: 0 <= i < |items| ==> Readable(d, items[i])
  }

  function Values(d: Decoder, items: seq<Item>): (r: seq<Value>)
    requires AllReadable(d, items)
    ensures |r| == |items|
  {
    seq(|items|, i requires 0 <= i < |items| => ValueOf(d, items[i]))
  }

  /** An entry as a peer may write it: with any flag, in either of two types for an integer, or of no known type. */
  datatype PeerEntry =
    | PeerObject(flag: u32, blob: seq<byte>)
    | PeerInt32(flag: u32, typ: u32, n: i32)
    | PeerInt64(flag: u32, typ: u32, m: i64)
    | PeerOther(flag: u32, typ: u32)

  function PeerBytes(e: PeerEntry): seq<byte> {
    match e
    case PeerObject(flag, blob) => Le32(flag) + Le32(2) + Le32(|blob| % TWO32) + blob
    case PeerInt32(flag, typ, n) => Le32(flag) + Le32(typ) + Le32(ToU32(n))
    case PeerInt64(flag, typ, n) => Le32(flag) + Le32(typ) + Le64(ToU64(n))
    case PeerOther(flag, typ) => Le32(flag) + Le32(typ)
  }

  predicate Legible(d: Decoder, e: PeerEntry) {
    match e
    case PeerObject(_, blob) => 0 < |blob| < TWO32 && d(blob).Ok?
    case PeerInt32(_, typ, _) => typ in {3, 5}
    case PeerInt64(_, typ, _) => typ in {4, 6}
    case PeerOther(_, typ) => typ !in {2, 3, 4, 5, 6}
  }

  /** The value it stands for, if it stands for one. */
  function PeerValues(d: Decoder, e: PeerEntry): seq<Value>
    requires Legible(d, e)
  {
    match e
    case PeerObject(_, blob) => [d(blob).value]
    case PeerInt32(_, _, n) => [Int(n)]
    case PeerInt64(_, _, n) => [Int(n)]
    case PeerOther(_, _) => []
  }

  /** One entry in front of anything else. */
  lemma ParseEntry(d: Decoder, e: PeerEntry, rest: seq<byte>)
    requires Legible(d, e)
    ensures ParseItems(d, PeerBytes(e) + rest) == After(PeerValues(d, e), ParseItems(d, rest))
  {
    match e
    case PeerObject(flag, blob) => ParseObject(d, flag, blob, rest);
    case PeerInt32(flag, typ, n) => ParseInt32(d, flag, typ, n, rest);
    case PeerInt64(flag, typ, n) => ParseInt64(d, flag, typ, n, rest);
    case PeerOther(flag, typ) => ParseOther(d, flag, typ, rest);
  }

  lemma ParseOther(d: Decoder, flag: u32, typ: u32, rest: seq<byte>)
    requires typ !in {2, 3, 4, 5, 6}
    ensures ParseItems(d, Le32(flag) + Le32(typ) + rest) == After([], ParseItems(d, rest))
  {
    hide Le32, FromLe32;
    Fields(flag, typ, rest);
    var r := ParseItems(d, rest);
    if r.Items? { assert [] + r.values == r.values; }
  }

  /**
   An object with n bytes announced. Of a body that is too short the rest is read as zeros; nothing at all is an end of
   file; and what the decoder says of the blob decides.
   */
  lemma ParseBlob(d: Decoder, flag: u32, n: u32, body: seq<byte>)
    ensures var r := ParseItems(d, Le32(flag) + Le32(2) + (Le32(n) + body));
            if body == [] then r == Failed(Eof)
            else
              match d(if n <= |body| then body[..n] else body + seq(n - |body|, i => 0))
              case Ok(v) => r == After([v], ParseItems(d, if n <= |body| then body[n..] else []))
              case PlistError => r == Failed(BadPlist)
              case Panic => r == Failed(Panicking)
              case StackOverflow => r == Failed(Overflow)
  {
    hide Le32, FromLe32;
    Fields(flag, 2, Le32(n) + body);
    Le32RoundTrip(n);
    assert (Le32(n) + body)[..4] == Le32(n) && (Le32(n) + body)[4..] == body;
  }

  lemma ParseObject(d: Decoder, flag: u32, blob: seq<byte>, rest: seq<byte>)
    requires 0 < |blob| < TWO32 && d(blob).Ok?
    ensures ParseItems(d, PeerBytes(PeerObject(flag, blob)) + rest) == After([d(blob).value], ParseItems(d, rest))
  {
    hide Le32, ParseItems;
    ParseBlob(d, flag, |blob|, blob + rest);
    assert PeerBytes(PeerObject(flag, blob)) + rest == Le32(flag) + Le32(2) + (Le32(|blob|) + (blob + rest));
    assert (blob + rest)[..|blob|] == blob && (blob + rest)[|blob|..] == rest;
  }

  /** One turn of the parser at a 32-bit and at a 64-bit integer. */
  lemma TurnInt32(d: Decoder, b: seq<byte>)
    requires |b| >= 12 && FromLe32(b[4..8]) in {3, 5}
    ensures ParseItems(d, b) == After([Int(ToI32(FromLe32(b[8..][..4])))], ParseItems(d, b[8..][4..]))
  {
    hide FromLe32, FromLe64, ToI32, ToI64, After, Filled, Dropped, FaultOf;
  }

  lemma TurnInt64(d: Decoder, b: seq<byte>)
    requires |b| >= 16 && FromLe32(b[4..8]) in {4, 6}
    ensures ParseItems(d, b) == After([Int(ToI64(FromLe64(b[8..][..8])))], ParseItems(d, b[8..][8..]))
  {
    hide FromLe32, FromLe64, ToI32, ToI64, After, Filled, Dropped, FaultOf;
  }

  lemma ParseInt32(d: Decoder, flag: u32, typ: u32, n: i32, rest: seq<byte>)
    requires typ in {3, 5}
    ensures ParseItems(d, PeerBytes(PeerInt32(flag, typ, n)) + rest) == After([Int(n)], ParseItems(d, rest))
  {
    hide Le32, FromLe32, ParseItems;
    var b, tail := PeerBytes(PeerInt32(flag, typ, n)) + rest, Le32(ToU32(n)) + rest;
    Fields(flag, typ, tail);
    assert b == Le32(flag) + Le32(typ) + tail;
    Le32RoundTrip(ToU32(n));
    assert tail[..4] == Le32(ToU32(n)) && tail[4..] == rest;
    TurnInt32(d, b);
  }

  lemma ParseInt64(d: Decoder, flag: u32, typ: u32, n: i64, rest: seq<byte>)
    requires typ in {4, 6}
    ensures ParseItems(d, PeerBytes(PeerInt64(flag, typ, n)) + rest) == After([Int(n)], ParseItems(d, rest))
  {
    hide Le32, FromLe32, Le64, FromLe64, ParseItems;
    var b, tail := PeerBytes(PeerInt64(flag, typ, n)) + rest, Le64(ToU64(n)) + rest;
    Fields(flag, typ, tail);
    assert b == Le32(flag) + Le32(typ) + tail;
    Le64RoundTrip(ToU64(n));
    assert tail[..8] == Le64(ToU64(n)) && tail[8..] == rest;
    TurnInt64(d, b);
  }

  lemma Fields(flag: u32, typ: u32, tail: seq<byte>)
    ensures var b := Le32(flag) + Le32(typ) + tail; FromLe32(b[4..8]) == typ && b[8..] == tail
  {
    hide Le32, FromLe32;
    var b := Le32(flag) + Le32(typ) + tail;
    assert b[4..8] == Le32(typ);
    Le32RoundTrip(typ);
  }

  function PeerBytesAll(es: seq<PeerEntry>): seq<byte> {
    if es == [] then [] else PeerBytes(es[0]) + PeerBytesAll(es[1..])
  }

  function PeerValuesAll(d: Decoder, es: seq<PeerEntry>): seq<Value>
    requires forall i :: 0 <= i < |es| ==> Legible(d, es[i])
  {
    if es == [] then [] else PeerValues(d, es[0]) + PeerValuesAll(d, es[1..])
  }

  /** Whatever entries a peer writes, dictionary keys and unknown types between them, the values are read in order. */
  lemma {:induction false} ParseEntries(d: Decoder, es: seq<PeerEntry>, rest: seq<byte>)
    requires forall i :: 0 <= i < |es| ==> Legible(d, es[i])
    ensures ParseItems(d, PeerBytesAll(es) + rest) == After(PeerValuesAll(d, es), ParseItems(d, rest))
    decreases |es|
  {
    hide ParseItems, PeerBytes, PeerValues, Legible;
    if es == [] {
      assert [] + rest == rest;
      var r := ParseItems(d, rest);
      if r.Items? { assert [] + r.values == r.values; }
    } else {
      assert PeerBytesAll(es) + rest == PeerBytes(es[0]) + (PeerBytesAll(es[1..]) + rest);
      ParseEntries(d, es[1..], rest);
      ParseEntry(d, es[0], PeerBytesAll(es[1..]) + rest);
      AfterAfter(PeerValues(d, es[0]), PeerValuesAll(d, es[1..]), ParseItems(d, rest));
    }
  }

  /** An entry cut off, before the blob if it is an object, is an end of file. */
  lemma CutOff(d: Decoder, e: PeerEntry, n: nat)
    requires Legible(d, e) && 0 < n < |PeerBytes(e)| && (e.PeerObject? ==> n <= 12)
    ensures ParseItems(d, PeerBytes(e)[..n]) == Failed(Eof)
  {
    hide Le32, FromLe32, Le64, FromLe64;
    var typ := if e.PeerObject? then 2 else e.typ;
    var b := PeerBytes(e)[..n];
    if n >= 8 {
      var tail := b[8..];
      assert b == Le32(e.flag) + Le32(typ) + tail;
      Fields(e.flag, typ, tail);
    }
  }

  /** One item in front of anything else: an item is an entry with the flag 10. */
  lemma ParseOne(d: Decoder, item: Item, rest: seq<byte>)
    requires Readable(d, item)
    ensures ParseItems(d, Encoded(item) + rest) == After([ValueOf(d, item)], ParseItems(d, rest))
  {
    ParseEntry(d, EntryOf(item), rest);
    hide Le32, Le64, ParseItems;
  }

  function EntryOf(item: Item): PeerEntry {
    match item
    case Object(blob) => PeerObject(10, blob)
    case Int32(n) => PeerInt32(10, 3, n)
    case Int64(n) => PeerInt64(10, 4, n)
  }

  /** The fields of an item on the wire. */
  lemma ItemOnWire(item: Item)
    ensures var b := Encoded(item);
            |b| >= 12 && FromLe32(b[..4]) == 10
            && match item
               case Object(blob) =>
                 FromLe32(b[4..8]) == 2 && b[12..] == blob && (|blob| < TWO32 ==> FromLe32(b[8..12]) == |blob|)
               case Int32(n) =>
                 FromLe32(b[4..8]) == 3 && |b| == 12
                 && FromLe32(b[8..]) == if n >= 0 then n else n + 0x1_0000_0000
               case Int64(n) =>
                 FromLe32(b[4..8]) == 4 && |b| == 16
                 && FromLe64(b[8..]) == if n >= 0 then n else n + 0x1_0000_0000_0000_0000
  {
    hide Le32, FromLe32, Le64, FromLe64;
    var b := Encoded(item);
    var typ: u32 := match item case Object(_) => 2 case Int32(_) => 3 case Int64(_) => 4;
    assert b[..4] == Le32(10) && b[4..8] == Le32(typ);
    Le32RoundTrip(10);
    Le32RoundTrip(typ);
    match item
    case Object(blob) =>
      assert b[8..12] == Le32(|blob| % TWO32);
      Le32RoundTrip(|blob| % TWO32);
    case Int32(n) =>
      assert b[8..] == Le32(ToU32(n));
      Le32RoundTrip(ToU32(n));
    case Int64(n) =>
      assert b[8..] == Le64(ToU64(n));
      Le64RoundTrip(ToU64(n));
  }

  lemma {:induction false} ParseBody(d: Decoder, items: seq<Item>, rest: seq<byte>)
    requires AllReadable(d, items)
    ensures ParseItems(d, Body(items) + rest) == After(Values(d, items), ParseItems(d, rest))
    decreases |items|
  {
    if items == [] {
      assert [] + rest == rest && Values(d, items) == [];
    } else {
      hide ParseItems, Encoded, ValueOf, Values;
      var n := |items| - 1;
      assert Body(items) + rest == Body(items[..n]) + (Encoded(items[n]) + rest);
      ParseBody(d, items[..n], Encoded(items[n]) + rest);
      ParseOne(d, items[n], rest);
      AfterAfter(Values(d, items[..n]), [ValueOf(d, items[n])], ParseItems(d, rest));
      ValuesLast(d, items);
    }
  }

  lemma ValuesLast(d: Decoder, items: seq<Item>)
    requires AllReadable(d, items) && items != []
    ensures Values(d, items) == Values(d, items[..|items|-1]) + [ValueOf(d, items[|items|-1])]
  {}

  /** Whatever was appended, in order and nothing else, is what UnmarshalAuxBuffer reads from Bytes(). */
  lemma AuxRoundTrip(d: Decoder, items: seq<Item>)
    requires AllReadable(d, items) && |Body(items)| < TWO64
    ensures Parse(d, Framed(Body(items))) == Items(Values(d, items))
  {
    hide ParseItems, Body, Framed, Parse;
    var body := Body(items);
    FramedParts(d, body);
    ParseBody(d, items, []);
    assert body + [] == body && ParseItems(d, []) == Items([]) by { ParseNothing(d); }
  }

  lemma ParseNothing(d: Decoder)
    ensures ParseItems(d, []) == Items([])
  {}

  /** An object whose blob is empty, standing last, is an end-of-file error and takes the whole buffer with it. */
  lemma EmptyBlobLast(d: Decoder, items: seq<Item>)
    requires AllReadable(d, items) && |Body(items + [Object([])])| < TWO64
    ensures Parse(d, Framed(Body(items + [Object([])]))) == Failed(Eof)
  {
    var last, body := Encoded(Object([])), Body(items + [Object([])]);
    assert (items + [Object([])])[..|items|] == items;
    ParseBody(d, items, last);
    EmptyBlob(d);
    FramedParts(d, body);
  }

  lemma EmptyBlob(d: Decoder)
    ensures ParseItems(d, Encoded(Object([]))) == Failed(Eof)
  {
    hide Le32, ParseItems;
    ParseBlob(d, 10, 0, []);
    assert Encoded(Object([])) == Le32(10) + Le32(2) + (Le32(0) + []);
  }

  /** The frame: any magic number will do, and the body may be longer than announced but not shorter. */
  lemma ParseFrame(d: Decoder, magic: u64, n: u64, body: seq<byte>)
    ensures Parse(d, Le64(magic) + Le64(n) + body) == if n > |body| then Failed(TooShort) else ParseItems(d, body)
  {
    hide ParseItems, Le64, FromLe64;
    Le64RoundTrip(n);
    var b := Le64(magic) + Le64(n) + body;
    assert b[8..16] == Le64(n) && b[16..] == body;
  }

  lemma FramedParts(d: Decoder, body: seq<byte>)
    requires |body| < TWO64
    ensures Parse(d, Framed(body)) == ParseItems(d, body)
  {
    hide ParseItems, Framed, FromLe64;
    FrameOnWire(body);
  }

  lemma FrameOnWire(body: seq<byte>)
    requires |body| < TWO64
    ensures var b := Framed(body); FromLe64(b[..8]) == 0x01f0 && FromLe64(b[8..16]) == |body| && b[16..] == body
  {
    hide Le64, FromLe64;
    Le64RoundTrip(0x01f0);
    Le64RoundTrip(|body|);
    var b := Framed(body);
    assert b[..8] == Le64(0x01f0) && b[8..16] == Le64(|body|) && b[16..] == body;
  }

  /** Every value takes at least twelve bytes of the input, whatever the input is. */
  lemma {:induction false} ParseBound(d: Decoder, b: seq<byte>)
    ensures ParseItems(d, b).Items? ==> 12 * |ParseItems(d, b).values| <= |b|
    decreases |b|
  {
    if |b| >= 8 {
      var typ, rest := FromLe32(b[4..8]), b[8..];
      if typ == 2 {
        if |rest| > 4 { ParseBound(d, Dropped(rest[4..], FromLe32(rest[..4]))); }
      } else if typ == 3 || typ == 5 {
        if |rest| >= 4 { ParseBound(d, rest[4..]); }
      } else if typ == 4 || typ == 6 {
        if |rest| >= 8 { ParseBound(d, rest[8..]); }
      } else {
        ParseBound(d, rest);
      }
    }
  }
}
