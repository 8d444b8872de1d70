/**
 The flattener of pkg/nskeyedarchiver: archive appends a value to the object table and returns the
 UID of its first slot. A container puts an empty info map in its slot, flattens its children behind
 it and fills the info map in last.
 */
module Archiver {
  import opened Bytes
  import opened GoValues
  import opened Unarchiver

  function ClassEntry(name: string): Value {
    Map(map["$classname" := Str(name), "$classes" := Slice([Str(name), Str("NSObject")])])
  }

  /** The info maps of an array and of a dictionary once they are filled in. */
  function ArrayInfo(objs: seq<Value>, cls: nat): Value {
    Map(map["NS.objects" := Slice(objs), "$class" := Uid(cls)])
  }

  function DictionaryInfo(keys: seq<Value>, objs: seq<Value>, cls: nat): Value {
    Map(map["NS.keys" := Slice(keys), "NS.objects" := Slice(objs), "$class" := Uid(cls)])
  }

  /**
   What one call gives back. An unsupported kind returns the nil table: the slots handed in are lost
   (`kept` is false), and an info map placed in one of them is no longer reachable from the table.
   */
  datatype Flat = Panicked | Flat(objects: seq<Value>, uid: nat, kept: bool)

  // ---------------------------------------------------------------------------------------------
  // Which values are flattened
  // ---------------------------------------------------------------------------------------------

  /** reflect.ValueOf(nil).Type() panics; only a test configuration looks at a field before asking. */
  ghost predicate Crashes(v: Value) {
    match v
    case Nil => true
    case Slice(items) => exists i :: 0 <= i < |items| && Crashes(items[i])
    case Map(m) => exists k :: k in m && Crashes(m[k])
    case XCTestConfiguration(m) => exists k :: k in m && !Inlined(k, m[k]) && Crashes(m[k])
    case _ => false
  }

  /** No part of the value is of a kind archive falls through on. */
  ghost predicate Archivable(v: Value) {
    match v
    case Nil => false
    case Float(_) => false
    case NSError(_, _, _) => false
    case Date(_) => false
    case Slice(items) => forall i :: 0 <= i < |items| ==> Archivable(items[i])
    case Map(m) => forall k :: k in m ==> Archivable(m[k])
    case XCTestConfiguration(m) => forall k :: k in m ==> Inlined(k, m[k]) || Archivable(m[k])
    case _ => true
  }

  /**
   The caller has put no plist.UID of its own into the value.
   */
  ghost predicate UidFree(v: Value) {
    match v
    case Uid(_) => false
    case Slice(items) => forall i :: 0 <= i < |items| ==> UidFree(items[i])
    case Map(m) => forall k :: k in m ==> UidFree(m[k])
    case XCTestConfiguration(m) => forall k :: k in m ==> UidFree(m[k])
    case _ => true
  }

  // ---------------------------------------------------------------------------------------------
  // What a table says: a reading that fixes neither the enumeration order nor the layout
  // ---------------------------------------------------------------------------------------------

  /** A reference held by the container at slot u: to a later slot of the table. */
  predicate Ref(t: seq<Value>, u: nat, r: Value) { r.Uid? && u < r.id < |t| }

  predicate ClassAt(t: seq<Value>, u: nat, m: map<string, Value>, name: string) {
    "$class" in m && Ref(t, u, m["$class"]) && t[m["$class"].id] == ClassEntry(name)
  }

  /** What stands behind a class reference: the name, and the classes from the name up to NSObject. */
  lemma ClassRecord(t: seq<Value>, u: nat, m: map<string, Value>, name: string)
    requires ClassAt(t, u, m, name)
    ensures var c := t[m["$class"].id];
            c.Map? && c.entries.Keys == {"$classname", "$classes"} && c.entries["$classname"] == Str(name)
            && c.entries["$classes"] == Slice([Str(name), Str("NSObject")])
  {}

  predicate ArrayAt(t: seq<Value>, u: nat)
    ensures ArrayAt(t, u) ==> u < |t| && t[u].Map? && SliceAt(t[u].entries, "NS.objects")
  {
    u < |t| && t[u].Map? && t[u].entries.Keys == {"NS.objects", "$class"}
    && SliceAt(t[u].entries, "NS.objects") && ClassAt(t, u, t[u].entries, "NSArray")
  }

  predicate DictionaryAt(t: seq<Value>, u: nat)
    ensures DictionaryAt(t, u) ==> u < |t| && t[u].Map? && SliceAt(t[u].entries, "NS.objects")
    ensures DictionaryAt(t, u) ==> SliceAt(t[u].entries, "NS.keys")
  {
    u < |t| && t[u].Map? && t[u].entries.Keys == {"NS.keys", "NS.objects", "$class"}
    && SliceAt(t[u].entries, "NS.keys") && SliceAt(t[u].entries, "NS.objects")
    && ClassAt(t, u, t[u].entries, "NSDictionary")
  }

  function Objects(t: seq<Value>, u: nat): seq<Value>
    requires u < |t| && t[u].Map? && SliceAt(t[u].entries, "NS.objects")
  {
    t[u].entries["NS.objects"].items
  }

  function Keys(t: seq<Value>, u: nat): seq<Value>
    requires DictionaryAt(t, u)
  {
    t[u].entries["NS.keys"].items
  }

  /** Slot u of the table stands for v. */
  ghost predicate Represents(t: seq<Value>, u: nat, v: Value)
    decreases v, 1
  {
    match v
    case Slice(items) => ArrayAt(t, u) && RepresentsItems(t, u, Objects(t, u), items)
    case Data(bs) => ArrayAt(t, u) && RepresentsBytes(t, u, Objects(t, u), bs)
    case Map(m) => DictionaryAt(t, u) && RepresentsEntries(t, u, Keys(t, u), Objects(t, u), v)
    case NSURL(path) => RepresentsURL(t, u, path)
    case NSUUID(bs) => RepresentsUUID(t, u, bs)
    case XCTestConfiguration(fields) =>
      u < |t| && t[u].Map? && t[u].entries.Keys == fields.Keys + {"$class"}
      && ("$class" !in fields ==> ClassAt(t, u, t[u].entries, "XCTestConfiguration"))
      && RepresentsFields(t, u, t[u].entries, fields.Keys, v)
    case _ => u < |t| && t[u] == v && (v.Str? || v.Bool? || v.Int? || v.Uid?)
  }

  /** The references of a container at slot u stand for its items, in order. */
  ghost predicate RepresentsItems(t: seq<Value>, u: nat, refs: seq<Value>, items: seq<Value>)
    decreases items, 0
  {
    |refs| == |items|
    && forall i :: 0 <= i < |items| ==> Ref(t, u, refs[i]) && Represents(t, refs[i].id, items[i])
  }

  predicate RepresentsBytes(t: seq<Value>, u: nat, refs: seq<Value>, bs: seq<byte>) {
    |refs| == |bs|
    && forall i :: 0 <= i < |bs| ==> Ref(t, u, refs[i]) && t[refs[i].id] == Int(bs[i])
  }

  /** Each pair of references stands for one entry, and every entry has its pair. */
  ghost predicate RepresentsEntries(t: seq<Value>, u: nat, keys: seq<Value>, refs: seq<Value>, v: Value)
    requires v.Map?
    decreases v, 0
  {
    |keys| == |refs| == |v.entries|
    && (forall i :: 0 <= i < |keys| ==> EntryPair(t, u, keys[i], refs[i], v))
    && Covered(t, keys, v.entries.Keys)
  }

  /** Every name stands behind one of the key references. */
  ghost predicate Covered(t: seq<Value>, keys: seq<Value>, names: set<string>) {
    forall k :: k in names ==> exists i :: 0 <= i < |keys| && KeyIs(t, keys[i], k)
  }

  predicate KeyIs(t: seq<Value>, key: Value, k: string) { InTable(t, key) && t[key.id] == Str(k) }

  ghost predicate EntryPair(t: seq<Value>, u: nat, key: Value, ref: Value, v: Value)
    requires v.Map?
    decreases v, 0, 0
  {
    Ref(t, u, key) && Ref(t, u, ref)
    && t[key.id].Str? && t[key.id].s in v.entries
    && Represents(t, ref.id, v.entries[t[key.id].s])
  }

  predicate RepresentsURL(t: seq<Value>, u: nat, path: string) {
    u < |t| && t[u].Map? && var m := t[u].entries;
    m.Keys == {"NS.base", "NS.relative", "$class"} && m["NS.base"] == Uid(0)
    && Ref(t, u, m["NS.relative"]) && t[m["NS.relative"].id] == Str("file://" + path)
    && ClassAt(t, u, m, "NSURL")
  }

  predicate RepresentsUUID(t: seq<Value>, u: nat, uuid: seq<byte>) {
    u < |t| && t[u].Map? && var m := t[u].entries;
    m.Keys == {"NS.uuidbytes", "$class"} && m["NS.uuidbytes"] == Data(uuid) && ClassAt(t, u, m, "NSUUID")
  }

  /** nil is UID 0, an inlined scalar stands in the info map itself, anything else behind a reference. */
  ghost predicate RepresentsFields(t: seq<Value>, u: nat, info: map<string, Value>, names: set<string>, v: Value)
    requires v.XCTestConfiguration? && names <= v.fields.Keys
    decreases v, 0
  {
    forall k :: k in names ==>
      k in info
      && if v.fields[k].Nil? then info[k] == Uid(0)
         else if Inlined(k, v.fields[k]) then info[k] == v.fields[k]
         else Ref(t, u, info[k]) && Represents(t, info[k].id, v.fields[k])
  }

  /** From slot u on, t' says what t says. */
  ghost predicate Agree(t: seq<Value>, t': seq<Value>, u: nat) {
    |t| <= |t'| && forall i :: u <= i < |t| ==> t'[i] == t[i]
  }

  /** Only the slots from u on matter, and appending to the table changes nothing. */
  lemma {:induction false} Frame(t: seq<Value>, t': seq<Value>, u: nat, v: Value)
    requires Represents(t, u, v) && Agree(t, t', u)
    ensures Represents(t', u, v)
    decreases v, 1
  {
    match v {
      case Slice(items) =>
        FrameArray(t, t', u);
        FrameItems(t, t', u, Objects(t, u), items);
      case Map(m) =>
        FrameDictionary(t, t', u);
        FrameEntries(t, t', u, Keys(t, u), Objects(t, u), v);
      case XCTestConfiguration(fields) =>
        FrameFields(t, t', u, t[u].entries, fields.Keys, v);
        FrameOther(t, t', u, v);
      case _ =>
        FrameOther(t, t', u, v);
    }
  }

  lemma FrameArray(t: seq<Value>, t': seq<Value>, u: nat)
    requires ArrayAt(t, u) && Agree(t, t', u)
    ensures ArrayAt(t', u) && Objects(t', u) == Objects(t, u)
  {}

  lemma FrameDictionary(t: seq<Value>, t': seq<Value>, u: nat)
    requires DictionaryAt(t, u) && Agree(t, t', u)
    ensures DictionaryAt(t', u) && Objects(t', u) == Objects(t, u) && Keys(t', u) == Keys(t, u)
  {}

  lemma FrameOther(t: seq<Value>, t': seq<Value>, u: nat, v: Value)
    requires !v.Slice? && !v.Map? && Represents(t, u, v) && Agree(t, t', u)
    requires v.XCTestConfiguration? ==> RepresentsFields(t', u, t[u].entries, v.fields.Keys, v)
    ensures Represents(t', u, v)
  {
    hide RepresentsFields;
    if v.Data? { FrameArray(t, t', u); }
  }

  lemma {:induction false} FrameItems(t: seq<Value>, t': seq<Value>, u: nat, refs: seq<Value>, items: seq<Value>)
    requires RepresentsItems(t, u, refs, items) && Agree(t, t', u + 1)
    ensures RepresentsItems(t', u, refs, items)
    decreases items, 0
  {
    forall i | 0 <= i < |items| ensures Ref(t', u, refs[i]) && Represents(t', refs[i].id, items[i]) {
      Frame(t, t', refs[i].id, items[i]);
    }
  }

  lemma {:induction false} FramePair(t: seq<Value>, t': seq<Value>, u: nat, key: Value, ref: Value, v: Value)
    requires v.Map? && EntryPair(t, u, key, ref, v) && Agree(t, t', u + 1)
    ensures EntryPair(t', u, key, ref, v) && t'[key.id] == t[key.id]
    decreases v, 0, 0
  {
    Frame(t, t', ref.id, v.entries[t[key.id].s]);
  }

  lemma {:induction false} FrameEntries(t: seq<Value>, t': seq<Value>, u: nat, keys: seq<Value>, refs: seq<Value>,
        v: Value)
    requires v.Map? && RepresentsEntries(t, u, keys, refs, v) && Agree(t, t', u + 1)
    ensures RepresentsEntries(t', u, keys, refs, v)
    decreases v, 0
  {
    hide Represents, Covered;
    forall i | 0 <= i < |keys| ensures EntryPair(t', u, keys[i], refs[i], v) && SameKey(t, t', keys[i]) {
      FramePair(t, t', u, keys[i], refs[i], v);
    }
    FrameCovered(t, t', keys, v.entries.Keys);
  }

  /** The same key string stands behind a key reference. */
  predicate SameKey(t: seq<Value>, t': seq<Value>, key: Value) {
    InTable(t, key) && InTable(t', key) && t'[key.id] == t[key.id]
  }

  lemma FrameCovered(t: seq<Value>, t': seq<Value>, keys: seq<Value>, names: set<string>)
    requires Covered(t, keys, names)
    requires forall i :: 0 <= i < |keys| ==> SameKey(t, t', keys[i])
    ensures Covered(t', keys, names)
  {
    forall k | k in names ensures exists i :: 0 <= i < |keys| && KeyIs(t', keys[i], k) {
      var i :| 0 <= i < |keys| && KeyIs(t, keys[i], k);
      assert SameKey(t, t', keys[i]);
      assert KeyIs(t', keys[i], k);
    }
  }

  lemma {:induction false} FrameFields(t: seq<Value>, t': seq<Value>, u: nat, info: map<string, Value>,
                                       names: set<string>, v: Value)
    requires v.XCTestConfiguration? && names <= v.fields.Keys
    requires RepresentsFields(t, u, info, names, v) && Agree(t, t', u + 1)
    ensures RepresentsFields(t', u, info, names, v)
    decreases v, 0
  {
    forall k | k in names && !Inlined(k, v.fields[k])
      ensures Ref(t', u, info[k]) && Represents(t', info[k].id, v.fields[k])
    {
      Frame(t, t', info[k].id, v.fields[k]);
    }
  }

  // ---------------------------------------------------------------------------------------------
  // Two facts about every slot
  // ---------------------------------------------------------------------------------------------

  /** The references the decoder would follow from a value standing at slot lo of a table of n slots. */
  ghost predicate Forward(v: Value, lo: nat, n: nat) {
    match v
    case Uid(id) => lo < id < n
    case Slice(items) => forall i :: 0 <= i < |items| ==> Forward(items[i], lo, n)
    case Map(m) =>
      "NS.objects" in m && m["NS.objects"].Slice? ==> Forward(m["NS.objects"], lo, n)
    case _ => true
  }

  ghost predicate ForwardFrom(t: seq<Value>, from: nat) {
    forall i :: from <= i < |t| ==> Forward(t[i], i, |t|)
  }

  /** What an archiver may put into a slot: a scalar, or a flat map of references and scalars. */
  predicate Entry(v: Value) {
    match v
    case Map(m) =>
      (forall k :: k in m ==> Field(m[k]))
      && ("$classname" in m && m["$classname"].Str? ==> Known(m["$classname"].s))
    case _ => v.Str? || v.Int? || v.Bool? || v.Uid?
  }

  predicate Field(v: Value) {
    match v
    case Slice(items) => forall i :: 0 <= i < |items| ==> items[i].Uid? || items[i].Str?
    case _ => v.Str? || v.Int? || v.Bool? || v.Uid? || v.Data?
  }

  predicate Known(name: string) {
    name in {"NSDictionary", "NSArray", "NSURL", "NSUUID", "XCTestConfiguration"}
  }

  predicate Entries(t: seq<Value>) { forall i :: 0 <= i < |t| ==> Entry(t[i]) }

  lemma ForwardGrows(v: Value, lo: nat, n: nat, n': nat)
    requires Forward(v, lo, n) && n <= n'
    ensures Forward(v, lo, n')
  {}

  /** What one call of archive achieves. */
  ghost predicate Flattened(before: seq<Value>, v: Value, r: Flat) {
    && (r.Panicked? <==> Crashes(v))
    && (r.Flat? ==>
         && (r.kept <==> Archivable(v))
         && (Entries(before) ==> Entries(r.objects)))
    && (r.Flat? && r.kept ==> r.uid == |before| && Placed(before, v, r.objects))
    && (r.Flat? && !r.kept && UidFree(v) ==> ForwardFrom(r.objects, 0))
  }

  /**
   The table handed in is a prefix of the table returned; v takes Size(v) slots behind it, read from
   the first of them; and the decoder can only be led from these slots to later ones.
   */
  ghost predicate Placed(before: seq<Value>, v: Value, t: seq<Value>) {
    && before <= t
    && |t| == |before| + Size(v)
    && Represents(t, |before|, v)
    && (UidFree(v) ==> ForwardFrom(t, |before|))
  }

  // ---------------------------------------------------------------------------------------------
  // archive and its helpers
  // ---------------------------------------------------------------------------------------------

  method Archive(before: seq<Value>, v: Value) returns (r: Flat)
    ensures Flattened(before, v, r)
    decreases Size(v), 1
  {
    match v {
      case Nil => r := Panicked;
      case Str(_) => r := Flat(before + [v], |before|, true);
      case Bool(_) => r := Flat(before + [v], |before|, true);
      case Int(_) => r := Flat(before + [v], |before|, true);
      case Uid(_) => r := Flat(before + [v], |before|, true);
      case Map(m) => r := ArchiveDictionary(before, m);
      case Slice(items) => r := ArchiveArray(before, items);
      case Data(bs) =>
        IntsSize(bs);
        r := ArchiveArray(before, Ints(bs));
        assert Flattened(before, v, r) by { BytesAsArray(before, bs, r); }
      case NSURL(path) => r := ArchiveURL(before, path);
      case NSUUID(bs) => r := ArchiveUUID(before, bs);
      case XCTestConfiguration(fields) => r := ArchiveConfiguration(before, fields);
      case _ => r := Flat([], 0, false);
    }
  }
  
  lemma {:induction false} SliceSizeAt(items: seq<Value>, i: nat)
    requires i < |items|
    ensures SliceSize(items[..i+1]) == SliceSize(items[..i]) + Size(items[i])
    ensures Size(items[i]) <= SliceSize(items)
    decreases |items|
  {
    assert items[..i+1][..i] == items[..i];
    if i == |items| - 1 {
      assert items[..i+1] == items;
    } else {
      SliceSizeAt(items[..|items|-1], i);
    }
  }

  lemma {:induction false} IntsSize(bs: seq<byte>)
    ensures SliceSize(Ints(bs)) == |bs|
    decreases |bs|
  {
    if bs != [] {
      var n := |bs| - 1;
      assert Ints(bs)[..n] == Ints(bs[..n]);
      IntsSize(bs[..n]);
    }
  }

  /** A byte slice is flattened as the array of its bytes. */
  lemma BytesAsArray(before: seq<Value>, bs: seq<byte>, r: Flat)
    requires Flattened(before, Slice(Ints(bs)), r)
    ensures Flattened(before, Data(bs), r)
  {
    var v := Slice(Ints(bs));
    IntsSize(bs);
    BytesPlain(bs);
    if r.Flat? && r.kept {
      hide Archivable, Crashes, UidFree, Entries, ForwardFrom;
      BytesRead(r.objects, r.uid, bs);
    }
  }

  lemma BytesPlain(bs: seq<byte>)
    ensures var v := Slice(Ints(bs)); Archivable(v) && !Crashes(v) && UidFree(v)
  {
    assert forall i :: 0 <= i < |bs| ==> Archivable(Ints(bs)[i]) && !Crashes(Ints(bs)[i]) && UidFree(Ints(bs)[i]);
  }

  lemma BytesRead(t: seq<Value>, u: nat, bs: seq<byte>)
    requires Represents(t, u, Slice(Ints(bs)))
    ensures Represents(t, u, Data(bs))
  {
    var refs := Objects(t, u);
    assert RepresentsItems(t, u, refs, Ints(bs));
    forall i | 0 <= i < |bs| ensures Ref(t, u, refs[i]) && t[refs[i].id] == Int(bs[i]) {
      assert Ints(bs)[i] == Int(bs[i]);
      assert Represents(t, refs[i].id, Ints(bs)[i]);
    }
  }

  // --- NSArray ---------------------------------------------------------------------------------

  /** The state of NSArray.archive after its first i elements, while no element was unsupported. */
  ghost predicate ArrayPart(before: seq<Value>, t: seq<Value>, items: seq<Value>, objs: seq<Value>, i: nat)
    requires i <= |items|
  {
    && before + [Map(map[])] <= t
    && |t| == |before| + 1 + SliceSize(items[..i])
    && RepresentsItems(t, |before|, objs, items[..i])
    && ((forall j :: 0 <= j < i ==> UidFree(items[j])) ==> ForwardFrom(t, |before|))
  }

  lemma ForwardExtends(t: seq<Value>, t': seq<Value>, from: nat)
    requires t <= t' && ForwardFrom(t, from) && ForwardFrom(t', |t|)
    ensures ForwardFrom(t', from)
  {
    forall i | from <= i < |t'| ensures Forward(t'[i], i, |t'|) {
      if i < |t| { ForwardGrows(t[i], i, |t|, |t'|); }
    }
  }

  /** After a loss, what is left of the table refers forward still: nothing in it knows of the slots that are gone. */
  lemma LostStep(t: seq<Value>, v: Value, f: Flat, kept: bool)
    requires Flattened(t, v, f) && f.Flat? && UidFree(v) && !(kept && f.kept) && (!kept ==> ForwardFrom(t, 0))
    ensures ForwardFrom(f.objects, 0)
  {
    hide Represents, Forward, UidFree, Entries;
    if f.kept { ForwardExtends(t, f.objects, 0); }
  }

  lemma LostClosed(t: seq<Value>, name: string)
    requires ForwardFrom(t, 0)
    ensures ForwardFrom(t + [ClassEntry(name)], 0)
  {
    var t' := t + [ClassEntry(name)];
    assert ForwardFrom(t', |t|);
    ForwardExtends(t, t', 0);
  }

  lemma ArrayStart(before: seq<Value>, items: seq<Value>)
    ensures ArrayPart(before, before + [Map(map[])], items, [], 0)
  {
    assert items[..0] == [];
  }

  lemma ArrayStep(before: seq<Value>, t: seq<Value>, items: seq<Value>, objs: seq<Value>, i: nat, f: Flat)
    requires i < |items| && ArrayPart(before, t, items, objs, i)
    requires Flattened(t, items[i], f) && f.Flat? && f.kept
    ensures ArrayPart(before, f.objects, items, objs + [Uid(f.uid)], i + 1)
  {
    hide Represents, Forward, Size, SliceSize, Entries, Crashes, Archivable;
    var t', objs' := f.objects, objs + [Uid(f.uid)];
    SliceSizeAt(items, i);
    RepresentsInside(t', f.uid, items[i]);
    FrameItems(t, t', |before|, objs, items[..i]);
    if forall j :: 0 <= j < i + 1 ==> UidFree(items[j]) {
      ForwardExtends(t, t', |before|);
    }
  }

  /** The table once the info map is filled in and the class is appended. */
  function Closed(t: seq<Value>, at: nat, info: Value, name: string): seq<Value>
    requires at < |t|
  {
    t[at := info] + [ClassEntry(name)]
  }

  lemma ArrayFinish(before: seq<Value>, t: seq<Value>, items: seq<Value>, objs: seq<Value>)
    requires ArrayPart(before, t, items, objs, |items|)
    ensures |before| < |t|
    ensures var info := ArrayInfo(objs, |t|);
            Placed(before, Slice(items), Closed(t, |before|, info, "NSArray"))
  {
    var at := |before|;
    var info := ArrayInfo(objs, |t|);
    var t' := Closed(t, at, info, "NSArray");
    assert items[..|items|] == items;
    FrameItems(t, t', at, objs, items);
    assert Objects(t', at) == objs;
    if UidFree(Slice(items)) {
      CloseForward(t, at, info, "NSArray");
    }
  }

  lemma CloseForward(t: seq<Value>, at: nat, info: Value, name: string)
    requires at < |t| && ForwardFrom(t, at) && Forward(info, at, |t| + 1)
    ensures ForwardFrom(Closed(t, at, info, name), at)
  {
    var t' := Closed(t, at, info, name);
    forall i | at <= i < |t'| ensures Forward(t'[i], i, |t'|) {
      if at < i < |t| { ForwardGrows(t[i], i, |t|, |t'|); }
    }
  }

  /** The table once the slice has been gone through: the placeholder is filled in unless it was lost. */
  lemma ArrayDone(before: seq<Value>, t: seq<Value>, items: seq<Value>, objs: seq<Value>, kept: bool)
    requires |objs| == |items| && forall i :: 0 <= i < |objs| ==> objs[i].Uid?
    requires forall i :: 0 <= i < |items| ==> !Crashes(items[i])
    requires kept <==> forall i :: 0 <= i < |items| ==> Archivable(items[i])
    requires Entries(before) ==> Entries(t)
    requires kept ==> ArrayPart(before, t, items, objs, |items|)
    requires !kept && UidFree(Slice(items)) ==> ForwardFrom(t, 0)
    ensures kept ==> |before| < |t|
    ensures var closed := if kept then t[|before| := ArrayInfo(objs, |t|)] else t;
            Flattened(before, Slice(items), Flat(closed + [ClassEntry("NSArray")], |before|, kept))
  {
    hide Placed, ArrayPart, Entry, Entries, ClassEntry, Known, ArrayInfo, SliceSize, ForwardFrom;
    InfoEntry([], objs, |t|);
    if !kept && UidFree(Slice(items)) { LostClosed(t, "NSArray"); }
    if Entries(before) { EntriesClosed(t, |before|, ArrayInfo(objs, |t|), "NSArray"); }
    if kept { ArrayFinish(before, t, items, objs); }
  }

  method ArchiveArray(before: seq<Value>, items: seq<Value>) returns (r: Flat)
    ensures Flattened(before, Slice(items), r)
    decreases 2 + SliceSize(items), 0
  {
    hide Placed, ArrayPart, Entry, Entries, ClassEntry, Known, ArrayInfo, SliceSize, ForwardFrom;
    InfoEntry([], [], 0);
    EntryAppended(before, Map(map[]));
    var objs: seq<Value> := [];
    var objects := before + [Map(map[])];
    var kept := true;
    ArrayStart(before, items);
    for i := 0 to |items|
      invariant |objs| == i && forall j :: 0 <= j < i ==> objs[j].Uid?
      invariant forall j :: 0 <= j < i ==> !Crashes(items[j])
      invariant kept <==> forall j :: 0 <= j < i ==> Archivable(items[j])
      invariant Entries(before) ==> Entries(objects)
      invariant kept ==> ArrayPart(before, objects, items, objs, i)
      invariant !kept && UidFree(Slice(items)) ==> ForwardFrom(objects, 0)
    {
      SliceSizeAt(items, i);
      var f := Archive(objects, items[i]);
      if f.Panicked? { return Panicked; }
      if kept && f.kept {
        ArrayStep(before, objects, items, objs, i, f);
      } else if UidFree(Slice(items)) {
        LostStep(objects, items[i], f, kept);
      }
      objects, objs, kept := f.objects, objs + [Uid(f.uid)], kept && f.kept;
    }
    ArrayDone(before, objects, items, objs, kept);
    var info := ArrayInfo(objs, |objects|);
    if kept { objects := objects[|before| := info]; }
    objects := objects + [ClassEntry("NSArray")];
    r := Flat(objects, |before|, kept);
  }

  // --- NSDictionary ----------------------------------------------------------------------------

  /** The state of NSDictionary.archive when only the keys in `rest` are still to come. */
  ghost predicate DictionaryPart(before: seq<Value>, t: seq<Value>, m: map<string, Value>,
                                 keys: seq<Value>, objs: seq<Value>, rest: set<string>)
    requires rest <= m.Keys
  {
    && before + [Map(map[])] <= t
    && |t| + EntriesSize(Map(m), m, rest) == |before| + 1 + EntriesSize(Map(m), m, m.Keys)
    && |keys| == |objs| && |keys| + |rest| == |m|
    && (forall i :: 0 <= i < |keys| ==> EntryPair(t, |before|, keys[i], objs[i], Map(m)))
    && Covered(t, keys, m.Keys - rest)
    && (UidFree(Map(m)) ==> ForwardFrom(t, |before|))
  }

  lemma DictionaryStart(before: seq<Value>, m: map<string, Value>)
    ensures DictionaryPart(before, before + [Map(map[])], m, [], [], m.Keys)
  {}

  lemma CoverMore(t: seq<Value>, t': seq<Value>, keys: seq<Value>, names: set<string>, k: string)
    requires Covered(t, keys, names) && forall i :: 0 <= i < |keys| ==> SameKey(t, t', keys[i])
    requires |t| < |t'| && t'[|t|] == Str(k)
    ensures Covered(t', keys + [Uid(|t|)], names + {k})
  {
    FrameCovered(t, t', keys, names);
    var keys' := keys + [Uid(|t|)];
    forall j | j in names + {k} ensures exists i :: 0 <= i < |keys'| && KeyIs(t', keys'[i], j) {
      if j == k {
        assert KeyIs(t', keys'[|keys|], j);
      } else {
        var i :| 0 <= i < |keys| && KeyIs(t', keys[i], j);
        assert KeyIs(t', keys'[i], j);
      }
    }
  }

  /** The pairs placed so far, and the one just placed, in the grown table. */
  lemma PairsStep(t: seq<Value>, t': seq<Value>, at: nat, m: map<string, Value>,
                  keys: seq<Value>, objs: seq<Value>, k: string)
    requires |keys| == |objs| && forall i :: 0 <= i < |keys| ==> EntryPair(t, at, keys[i], objs[i], Map(m))
    requires at < |t| && t + [Str(k)] <= t' && |t| + 1 < |t'| && k in m && Represents(t', |t| + 1, m[k])
    ensures forall i :: 0 <= i < |keys| + 1 ==>
              EntryPair(t', at, (keys + [Uid(|t|)])[i], (objs + [Uid(|t| + 1)])[i], Map(m))
    ensures forall i :: 0 <= i < |keys| ==> SameKey(t, t', keys[i])
  {
    var keys', objs' := keys + [Uid(|t|)], objs + [Uid(|t| + 1)];
    assert t'[|t|] == (t + [Str(k)])[|t|] == Str(k);
    forall i | 0 <= i < |keys'| ensures EntryPair(t', at, keys'[i], objs'[i], Map(m)) {
      if i < |keys| { FramePair(t, t', at, keys[i], objs[i], Map(m)); }
    }
    hide Represents;
    forall i | 0 <= i < |keys| ensures SameKey(t, t', keys[i]) {
      assert EntryPair(t, at, keys[i], objs[i], Map(m));
    }
  }

  lemma DictionaryStep(before: seq<Value>, t: seq<Value>, m: map<string, Value>,
                       keys: seq<Value>, objs: seq<Value>, rest: set<string>, k: string, f: Flat)
    requires k in rest && rest <= m.Keys && DictionaryPart(before, t, m, keys, objs, rest)
    requires Flattened(t + [Str(k)], m[k], f) && f.Flat? && f.kept
    ensures DictionaryPart(before, f.objects, m, keys + [Uid(|t|)], objs + [Uid(f.uid)], rest - {k})
  {
    hide Represents, Covered, Forward, EntryPair, SameKey, Entries, Crashes, Archivable, Size, EntriesSize;
    var t' := f.objects;
    RepresentsInside(t', f.uid, m[k]);
    EntriesSizePick(Map(m), m, rest, k);
    PairsStep(t, t', |before|, m, keys, objs, k);
    assert t'[|t|] == (t + [Str(k)])[|t|] == Str(k);
    CoverMore(t, t', keys, m.Keys - rest, k);
    assert m.Keys - rest + {k} == m.Keys - (rest - {k});
    if UidFree(Map(m)) {
      KeyForward(t, |before|, k);
      ForwardExtends(t + [Str(k)], t', |before|);
    }
  }

  lemma RepresentsInside(t: seq<Value>, u: nat, v: Value)
    requires Represents(t, u, v)
    ensures u < |t|
  {}

  lemma KeyForward(t: seq<Value>, from: nat, k: string)
    requires ForwardFrom(t, from)
    ensures ForwardFrom(t + [Str(k)], from)
  {
    ForwardExtends(t, t + [Str(k)], from);
  }

  lemma DictionaryFinish(before: seq<Value>, t: seq<Value>, m: map<string, Value>, keys: seq<Value>, objs: seq<Value>)
    requires DictionaryPart(before, t, m, keys, objs, {})
    ensures |before| < |t|
    ensures Placed(before, Map(m), Closed(t, |before|, DictionaryInfo(keys, objs, |t|), "NSDictionary"))
  {
    hide Represents, EntryPair, Covered, Forward, ForwardFrom, DictionaryInfo, ClassEntry;
    var at := |before|;
    var info := DictionaryInfo(keys, objs, |t|);
    assert EntriesSize(Map(m), m, {}) == 0;
    DictionaryFinishReads(t, at, m, keys, objs) by {
      assert m.Keys - {} == m.Keys;
    }
    if UidFree(Map(m)) {
      DictionaryInfoForward(t, at, keys, objs, m);
      CloseForward(t, at, info, "NSDictionary");
    }
  }

  lemma DictionaryFinishReads(t: seq<Value>, at: nat, m: map<string, Value>, keys: seq<Value>, objs: seq<Value>)
    requires at < |t| && RepresentsEntries(t, at, keys, objs, Map(m))
    ensures Represents(Closed(t, at, DictionaryInfo(keys, objs, |t|), "NSDictionary"), at, Map(m))
  {
    hide Represents, RepresentsEntries, DictionaryInfo, ClassEntry;
    var t' := Closed(t, at, DictionaryInfo(keys, objs, |t|), "NSDictionary");
    FrameEntries(t, t', at, keys, objs, Map(m));
    DictionaryClosed(t, at, keys, objs);
    DictionaryReads(t', at, keys, objs, m);
  }

  lemma DictionaryInfoForward(t: seq<Value>, at: nat, keys: seq<Value>, objs: seq<Value>, m: map<string, Value>)
    requires |keys| == |objs| && forall i :: 0 <= i < |keys| ==> EntryPair(t, at, keys[i], objs[i], Map(m))
    ensures Forward(DictionaryInfo(keys, objs, |t|), at, |t| + 1)
  {
    assert Forward(Slice(objs), at, |t| + 1) by {
      hide Represents;
      forall i | 0 <= i < |objs| ensures Forward(objs[i], at, |t| + 1) {
        assert EntryPair(t, at, keys[i], objs[i], Map(m));
      }
    }
    hide EntryPair;
  }

  lemma DictionaryClosed(t: seq<Value>, at: nat, keys: seq<Value>, objs: seq<Value>)
    requires at < |t|
    ensures var info := DictionaryInfo(keys, objs, |t|);
            var t' := Closed(t, at, info, "NSDictionary");
            DictionaryAt(t', at) && Keys(t', at) == keys && Objects(t', at) == objs
  {
    var info := DictionaryInfo(keys, objs, |t|);
    assert info.entries.Keys == {"NS.keys", "NS.objects", "$class"};
    assert Closed(t, at, info, "NSDictionary")[at] == info;
  }

  /** Closing a container, or appending the class of one whose info map was lost, adds proper entries only. */
  lemma EntriesClosed(t: seq<Value>, at: nat, info: Value, name: string)
    requires Entries(t) && Entry(info) && Known(name)
    ensures Entries(t + [ClassEntry(name)])
    ensures at < |t| ==> Entries(Closed(t, at, info, name))
  {}

  lemma EntryAppended(t: seq<Value>, v: Value)
    requires Entry(v)
    ensures Entries(t) ==> Entries(t + [v])
  {}

  lemma InfoEntry(keys: seq<Value>, objs: seq<Value>, c: nat)
    requires forall i :: 0 <= i < |keys| ==> keys[i].Uid?
    requires forall i :: 0 <= i < |objs| ==> objs[i].Uid?
    ensures Entry(DictionaryInfo(keys, objs, c))
    ensures Entry(ArrayInfo(objs, c))
    ensures Entry(Map(map[])) && forall k :: Entry(Str(k))
    ensures Known("NSArray") && Known("NSDictionary")
  {}

  lemma DictionaryReads(t: seq<Value>, u: nat, keys: seq<Value>, objs: seq<Value>, m: map<string, Value>)
    requires DictionaryAt(t, u) && Keys(t, u) == keys && Objects(t, u) == objs
    requires RepresentsEntries(t, u, keys, objs, Map(m))
    ensures Represents(t, u, Map(m))
  {}

  lemma EntrySmaller(m: map<string, Value>, k: string)
    requires k in m
    ensures Size(m[k]) < Size(Map(m))
  {
    EntriesSizePick(Map(m), m, m.Keys, k);
  }

  /** The table once the map has been gone through: the placeholder is filled in unless it was lost. */
  lemma DictionaryDone(before: seq<Value>, t: seq<Value>, m: map<string, Value>,
                       keys: seq<Value>, objs: seq<Value>, kept: bool)
    requires forall i :: 0 <= i < |keys| ==> keys[i].Uid?
    requires forall i :: 0 <= i < |objs| ==> objs[i].Uid?
    requires forall k :: k in m ==> !Crashes(m[k])
    requires kept <==> forall k :: k in m ==> Archivable(m[k])
    requires Entries(before) ==> Entries(t)
    requires kept ==> DictionaryPart(before, t, m, keys, objs, {})
    requires !kept && UidFree(Map(m)) ==> ForwardFrom(t, 0)
    ensures kept ==> |before| < |t|
    ensures var closed := if kept then t[|before| := DictionaryInfo(keys, objs, |t|)] else t;
            Flattened(before, Map(m), Flat(closed + [ClassEntry("NSDictionary")], |before|, kept))
  {
    hide Placed, DictionaryPart, Entry, Entries, ClassEntry, Known, DictionaryInfo, EntriesSize, Size, ForwardFrom;
    InfoEntry(keys, objs, |t|);
    if !kept && UidFree(Map(m)) { LostClosed(t, "NSDictionary"); }
    if Entries(before) { EntriesClosed(t, |before|, DictionaryInfo(keys, objs, |t|), "NSDictionary"); }
    if kept { DictionaryFinish(before, t, m, keys, objs); }
  }

  method ArchiveDictionary(before: seq<Value>, m: map<string, Value>) returns (r: Flat)
    ensures Flattened(before, Map(m), r)
    decreases Size(Map(m)), 0
  {
    hide Placed, DictionaryPart, Entry, Entries, ClassEntry, Known, DictionaryInfo, EntriesSize, Size, ForwardFrom;
    InfoEntry([], [], 0);
    EntryAppended(before, Map(map[]));
    var keys: seq<Value>, objs: seq<Value> := [], [];
    var objects := before + [Map(map[])];
    var kept := true;
    var rest := m.Keys;
    DictionaryStart(before, m);
    while rest != {}
      invariant rest <= m.Keys
      invariant forall i :: 0 <= i < |keys| ==> keys[i].Uid?
      invariant forall i :: 0 <= i < |objs| ==> objs[i].Uid?
      invariant forall k :: k in m && k !in rest ==> !Crashes(m[k])
      invariant kept <==> forall k :: k in m && k !in rest ==> Archivable(m[k])
      invariant Entries(before) ==> Entries(objects)
      invariant kept ==> DictionaryPart(before, objects, m, keys, objs, rest)
      invariant !kept && UidFree(Map(m)) ==> ForwardFrom(objects, 0)
      decreases rest
    {
      // a map is ranged over in any order
      var k :| k in rest;
      EntrySmaller(m, k);
      EntryAppended(objects, Str(k));
      var f := Archive(objects + [Str(k)], m[k]);
      if f.Panicked? { return Panicked; }
      if kept && f.kept {
        DictionaryStep(before, objects, m, keys, objs, rest, k, f);
      } else if UidFree(Map(m)) {
        if !kept { KeyForward(objects, 0, k); }
        LostStep(objects + [Str(k)], m[k], f, kept);
      }
      keys, objs := keys + [Uid(|objects|)], objs + [Uid(f.uid)];
      objects, kept, rest := f.objects, kept && f.kept, rest - {k};
    }
    DictionaryDone(before, objects, m, keys, objs, kept);
    var info := DictionaryInfo(keys, objs, |objects|);
    if kept { objects := objects[|before| := info]; }
    objects := objects + [ClassEntry("NSDictionary")];
    r := Flat(objects, |before|, kept);
  }

  // --- NSURL, NSUUID ---------------------------------------------------------------------------

  function URLInfo(u: nat): Value {
    Map(map["NS.base" := Uid(0), "NS.relative" := Uid(u + 1), "$class" := Uid(u + 2)])
  }

  lemma URLReads(t: seq<Value>, u: nat, path: string)
    requires u + 2 < |t| && t[u] == URLInfo(u)
    requires t[u + 1] == Str("file://" + path) && t[u + 2] == ClassEntry("NSURL")
    ensures RepresentsURL(t, u, path)
  {
    hide ClassEntry;
    assert t[u].entries.Keys == {"NS.base", "NS.relative", "$class"};
  }

  lemma URLEntries(u: nat)
    ensures Entry(URLInfo(u)) && Forward(URLInfo(u), u, u + 3)
    ensures Entry(ClassEntry("NSURL")) && forall lo, n :: Forward(ClassEntry("NSURL"), lo, n)
  {}

  lemma URLPlaced(before: seq<Value>, path: string)
    ensures var t := before + [URLInfo(|before|), Str("file://" + path), ClassEntry("NSURL")];
            Placed(before, NSURL(path), t) && (Entries(before) ==> Entries(t))
  {
    hide ClassEntry, RepresentsURL;
    URLReads(before + [URLInfo(|before|), Str("file://" + path), ClassEntry("NSURL")], |before|, path);
    assert Size(NSURL(path)) == 3;
    URLEntries(|before|);
  }

  method ArchiveURL(before: seq<Value>, path: string) returns (r: Flat)
    ensures Flattened(before, NSURL(path), r)
  {
    hide Placed, Entries, ClassEntry;
    URLPlaced(before, path);
    var objects := before + [Map(map[])] + [Str("file://" + path)];
    var info := Map(map["NS.base" := Uid(0), "NS.relative" := Uid(|before| + 1), "$class" := Uid(|objects|)]);
    objects := objects[|before| := info] + [ClassEntry("NSURL")];
    assert objects == before + [URLInfo(|before|), Str("file://" + path), ClassEntry("NSURL")];
    r := Flat(objects, |before|, true);
  }

  function UUIDInfo(u: nat, uuid: seq<byte>): Value { Map(map["NS.uuidbytes" := Data(uuid), "$class" := Uid(u + 1)]) }

  lemma UUIDReads(t: seq<Value>, u: nat, uuid: seq<byte>)
    requires u + 1 < |t| && t[u] == UUIDInfo(u, uuid) && t[u + 1] == ClassEntry("NSUUID")
    ensures RepresentsUUID(t, u, uuid)
  {
    hide ClassEntry;
    assert t[u].entries.Keys == {"NS.uuidbytes", "$class"};
  }

  lemma UUIDEntries(u: nat, uuid: seq<byte>)
    ensures Entry(UUIDInfo(u, uuid)) && Forward(UUIDInfo(u, uuid), u, u + 2)
    ensures Entry(ClassEntry("NSUUID")) && forall lo, n :: Forward(ClassEntry("NSUUID"), lo, n)
  {}

  lemma UUIDPlaced(before: seq<Value>, uuid: seq<byte>)
    ensures var t := before + [UUIDInfo(|before|, uuid), ClassEntry("NSUUID")];
            Placed(before, NSUUID(uuid), t) && (Entries(before) ==> Entries(t))
  {
    hide ClassEntry, RepresentsUUID;
    UUIDReads(before + [UUIDInfo(|before|, uuid), ClassEntry("NSUUID")], |before|, uuid);
    assert Size(NSUUID(uuid)) == 2;
    UUIDEntries(|before|, uuid);
  }

  method ArchiveUUID(before: seq<Value>, uuid: seq<byte>) returns (r: Flat)
    ensures Flattened(before, NSUUID(uuid), r)
  {
    hide Placed, Entries, ClassEntry;
    UUIDPlaced(before, uuid);
    var objects := before + [Map(map["NS.uuidbytes" := Data(uuid)])];
    objects := objects[|before| := Map(map["NS.uuidbytes" := Data(uuid), "$class" := Uid(|objects|)])];
    objects := objects + [ClassEntry("NSUUID")];
    assert objects == before + [UUIDInfo(|before|, uuid), ClassEntry("NSUUID")];
    r := Flat(objects, |before|, true);
  }

  // --- XCTestConfiguration ---------------------------------------------------------------------

  /** The state of XCTestConfiguration.archive when only the fields in `rest` are still to come. */
  ghost predicate ConfigurationPart(before: seq<Value>, t: seq<Value>, fields: map<string, Value>,
                                    info: map<string, Value>, rest: set<string>)
    requires rest <= fields.Keys
  {
    && before + [Map(map[]), ClassEntry("XCTestConfiguration")] <= t
    && |t| + FieldsSize(XCTestConfiguration(fields), fields, rest)
       == |before| + 2 + FieldsSize(XCTestConfiguration(fields), fields, fields.Keys)
    && info.Keys == fields.Keys - rest + {"$class"}
    && ("$class" !in fields ==> info["$class"] == Uid(|before| + 1))
    && RepresentsFields(t, |before|, info, fields.Keys - rest, XCTestConfiguration(fields))
    && (UidFree(XCTestConfiguration(fields)) ==> ForwardFrom(t, |before|))
  }

  lemma ConfigurationStart(before: seq<Value>, fields: map<string, Value>)
    ensures ConfigurationPart(before, before + [Map(map[]), ClassEntry("XCTestConfiguration")], fields,
                              map["$class" := Uid(|before| + 1)], fields.Keys)
  {}

  lemma FieldInfo(t: seq<Value>, u: nat, info: map<string, Value>, names: set<string>, v: Value, k: string, x: Value)
    requires v.XCTestConfiguration? && names <= v.fields.Keys && k in v.fields && k !in names
    requires RepresentsFields(t, u, info, names, v)
    requires if v.fields[k].Nil? then x == Uid(0)
             else if Inlined(k, v.fields[k]) then x == v.fields[k]
             else Ref(t, u, x) && Represents(t, x.id, v.fields[k])
    ensures RepresentsFields(t, u, info[k := x], names + {k}, v)
  {}

  /** A field that stays in the info map. */
  lemma ConfigurationInline(before: seq<Value>, t: seq<Value>, fields: map<string, Value>,
                            info: map<string, Value>, rest: set<string>, k: string, x: Value)
    requires k in rest && rest <= fields.Keys && ConfigurationPart(before, t, fields, info, rest)
    requires Inlined(k, fields[k]) && x == if fields[k].Nil? then Uid(0) else fields[k]
    ensures ConfigurationPart(before, t, fields, info[k := x], rest - {k})
  {
    hide Represents, RepresentsFields, ForwardFrom;
    var v := XCTestConfiguration(fields);
    FieldsSizePick(v, fields, rest, k);
    FieldInfo(t, |before|, info, fields.Keys - rest, v, k, x);
    assert fields.Keys - rest + {k} == fields.Keys - (rest - {k});
  }

  /** A field that is flattened behind a reference. */
  lemma ConfigurationStep(before: seq<Value>, t: seq<Value>, fields: map<string, Value>,
                          info: map<string, Value>, rest: set<string>, k: string, f: Flat)
    requires k in rest && rest <= fields.Keys && ConfigurationPart(before, t, fields, info, rest)
    requires !Inlined(k, fields[k]) && Flattened(t, fields[k], f) && f.Flat? && f.kept
    ensures ConfigurationPart(before, f.objects, fields, info[k := Uid(f.uid)], rest - {k})
  {
    hide Represents, RepresentsFields, Forward;
    var v := XCTestConfiguration(fields);
    RepresentsInside(f.objects, f.uid, fields[k]);
    FieldsSizePick(v, fields, rest, k);
    FrameFields(t, f.objects, |before|, info, fields.Keys - rest, v);
    FieldInfo(f.objects, |before|, info, fields.Keys - rest, v, k, Uid(f.uid));
    assert fields.Keys - rest + {k} == fields.Keys - (rest - {k});
    if UidFree(v) { ForwardExtends(t, f.objects, |before|); }
  }

  lemma ConfigurationFinish(before: seq<Value>, t: seq<Value>, fields: map<string, Value>, info: map<string, Value>)
    requires ConfigurationPart(before, t, fields, info, {})
    ensures |before| < |t|
    ensures Placed(before, XCTestConfiguration(fields), t[|before| := Map(info)])
  {
    var at, v := |before|, XCTestConfiguration(fields);
    var t' := t[at := Map(info)];
    assert fields.Keys - {} == fields.Keys;
    FrameFields(t, t', at, info, fields.Keys, v);
    assert t'[at + 1] == t[at + 1] == (before + [Map(map[]), ClassEntry("XCTestConfiguration")])[at + 1];
    assert Represents(t', at, v);
    if UidFree(v) {
      forall i | at <= i < |t'| ensures Forward(t'[i], i, |t'|) {}
    }
  }

  lemma ConfigurationEntries(t: seq<Value>, info: map<string, Value>)
    ensures Entries(t) ==> Entries(t + [Map(map[]), ClassEntry("XCTestConfiguration")])
    ensures Field(Uid(0)) && forall n :: Field(Uid(n))
    ensures forall k, v :: Inlined(k, v) && !v.Nil? ==> Field(v) && !v.Str?
  {}

  lemma FieldUidFree(fields: map<string, Value>, k: string)
    requires UidFree(XCTestConfiguration(fields)) && k in fields
    ensures UidFree(fields[k])
  {}

  /** The table once the fields have been gone through: the placeholder is filled in unless it was lost. */
  lemma ConfigurationDone(before: seq<Value>, t: seq<Value>, fields: map<string, Value>, info: map<string, Value>,
        kept: bool)
    requires forall k :: k in info ==> Field(info[k]) && !info[k].Str?
    requires forall k :: k in fields && !Inlined(k, fields[k]) ==> !Crashes(fields[k])
    requires kept <==> forall k :: k in fields ==> Inlined(k, fields[k]) || Archivable(fields[k])
    requires Entries(before) ==> Entries(t)
    requires kept ==> ConfigurationPart(before, t, fields, info, {})
    requires !kept && UidFree(XCTestConfiguration(fields)) ==> ForwardFrom(t, 0)
    ensures kept ==> |before| < |t|
    ensures Flattened(before, XCTestConfiguration(fields),
                      Flat(if kept then t[|before| := Map(info)] else t, |before|, kept))
  {
    hide Placed, ConfigurationPart, ForwardFrom, Size, UidFree;
    if kept { ConfigurationFinish(before, t, fields, info); }
  }

  method ArchiveConfiguration(before: seq<Value>, fields: map<string, Value>) returns (r: Flat)
    ensures Flattened(before, XCTestConfiguration(fields), r)
    decreases Size(XCTestConfiguration(fields)), 0
  {
    hide Placed, ConfigurationPart, ClassEntry, Represents, Size, FieldsSize, ForwardFrom, Entries, Entry, UidFree;
    var info: map<string, Value> := map["$class" := Uid(|before| + 1)];
    var objects := before + [Map(map[]), ClassEntry("XCTestConfiguration")];
    var kept := true;
    var rest := fields.Keys;
    ConfigurationStart(before, fields);
    ConfigurationEntries(before, info);
    while rest != {}
      invariant rest <= fields.Keys
      invariant forall k :: k in info ==> Field(info[k]) && !info[k].Str?
      invariant forall k :: k in fields && k !in rest && !Inlined(k, fields[k]) ==> !Crashes(fields[k])
      invariant kept <==> forall k :: k in fields && k !in rest ==> Inlined(k, fields[k]) || Archivable(fields[k])
      invariant Entries(before) ==> Entries(objects)
      invariant kept ==> ConfigurationPart(before, objects, fields, info, rest)
      invariant !kept && UidFree(XCTestConfiguration(fields)) ==> ForwardFrom(objects, 0)
      decreases rest
    {
      var k :| k in rest;
      if fields[k].Nil? {
        if kept { ConfigurationInline(before, objects, fields, info, rest, k, Uid(0)); }
        info := info[k := Uid(0)];
      } else if k != "formatVersion" && (fields[k].Bool? || fields[k].Int?) {
        if kept { ConfigurationInline(before, objects, fields, info, rest, k, fields[k]); }
        info := info[k := fields[k]];
      } else {
        FieldSmaller(fields, k);
        var f := Archive(objects, fields[k]);
        if f.Panicked? { return Panicked; }
        if kept && f.kept {
          ConfigurationStep(before, objects, fields, info, rest, k, f);
        } else if UidFree(XCTestConfiguration(fields)) {
          assert UidFree(fields[k]) by { FieldUidFree(fields, k); }
          LostStep(objects, fields[k], f, kept);
        }
        objects, info, kept := f.objects, info[k := Uid(f.uid)], kept && f.kept;
      }
      rest := rest - {k};
    }
    ConfigurationDone(before, objects, fields, info, kept);
    if kept { objects := objects[|before| := Map(info)]; }
    r := Flat(objects, |before|, kept);
  }

  lemma FieldSmaller(fields: map<string, Value>, k: string)
    requires k in fields && !Inlined(k, fields[k])
    ensures Size(fields[k]) < Size(XCTestConfiguration(fields))
  {
    FieldsSizePick(XCTestConfiguration(fields), fields, fields.Keys, k);
  }
}
