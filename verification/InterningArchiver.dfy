/**
 The interning encoder of pkg/libimobiledevice/keyedarchiver.go. One object serves any number of calls:
 `id` gives equal values one slot while a call is running, and both tables are emptied at its end.
 The values modelled here are strings, integers, booleans, floats, UIDs, and slices, byte slices and
 string-keyed maps.
 */
module InterningArchiver {
  import opened Bytes
  import opened GoValues
  import opened Unarchiver
  import opened Archiver
  import opened KeyedArchive

  /** A key of objRef: a value held in an interface, or a pointer to a struct with the given fields. */
  datatype Key = Held(v: Value) | Pointer(v: Value)

  predicate Scalar(v: Value) { v.Str? || v.Int? || v.Bool? || v.Float? || v.Uid? }

  /** Maps and slices are not hashable: using one as a map key panics. */
  predicate Hashable(k: Key) { k.Held? ==> Scalar(k.v) }

  predicate Modelled(v: Value) { Scalar(v) || v.Slice? || v.Map? || v.Data? }

  predicate Domain(v: Value) {
    match v
    case Slice(items) => forall i :: 0 <= i < |items| ==> Modelled(items[i])
    case Map(m) => forall k :: k in m ==> Modelled(m[k])
    case _ => Modelled(v)
  }

  /** The slots written to $objects: every pointer is replaced by what it points to. */
  function Flush(keys: seq<Key>): (t: seq<Value>)
    ensures |t| == |keys|
  {
    seq(|keys|, i requires 0 <= i < |keys| => keys[i].v)
  }

  /** Held values are scalars, pointers lead to structs. */
  predicate Proper(k: Key) {
    if k.Held? then Scalar(k.v) else k.v.Map? && Record(k.v.entries)
  }

  predicate AllProper(keys: seq<Key>) {
    forall i :: 0 <= i < |keys| ==> Proper(keys[i])
  }

  /** The fields of the structs the encoder points to. */
  predicate Record(m: map<string, Value>) {
    forall k :: k in m ==> m[k].Uid? || m[k].Str? || (m[k].Slice? && References(m[k].items))
  }

  predicate References(items: seq<Value>) {
    forall i :: 0 <= i < |items| ==> items[i].Uid? || items[i].Str?
  }

  /** A container inside a container. */
  ghost predicate Nested(v: Value) {
    match v
    case Slice(items) => exists i :: 0 <= i < |items| && !Scalar(items[i])
    case Map(m) => exists k :: k in m && !Scalar(m[k])
    case _ => false
  }

  // ---------------------------------------------------------------------------------------------
  // What a table with shared slots says
  // ---------------------------------------------------------------------------------------------

  ghost predicate Distinct(t: seq<Value>) {
    forall i, j :: 0 <= i < j < |t| ==> t[i] != t[j]
  }

  ghost predicate FlatItems(t: seq<Value>, refs: seq<Value>, items: seq<Value>) {
    |refs| == |items| && forall i :: 0 <= i < |items| ==> InTable(t, refs[i]) && t[refs[i].id] == items[i]
  }

  predicate FlatPair(t: seq<Value>, key: Value, ref: Value, m: map<string, Value>) {
    InTable(t, key) && InTable(t, ref) && t[key.id].Str? && t[key.id].s in m && t[ref.id] == m[t[key.id].s]
  }

  ghost predicate FlatEntries(t: seq<Value>, keys: seq<Value>, refs: seq<Value>, m: map<string, Value>,
        rest: set<string>)
  {
    |keys| == |refs|
    && (forall i :: 0 <= i < |keys| ==> FlatPair(t, keys[i], refs[i], m))
    && Covered(t, keys, m.Keys - rest)
  }

  ghost predicate FlatSlice(t: seq<Value>, u: nat, refs: seq<Value>, cls: nat, items: seq<Value>) {
    u < |t| && t[u] == ArrayInfo(refs, cls) && cls < |t| && t[cls] == ClassEntry("NSArray") && FlatItems(t, refs, items)
  }

  ghost predicate FlatMap(t: seq<Value>, u: nat, keys: seq<Value>, refs: seq<Value>, cls: nat, m: map<string, Value>) {
    u < |t| && t[u] == DictionaryInfo(keys, refs, cls) && cls < |t| && t[cls] == ClassEntry("NSDictionary")
    && FlatEntries(t, keys, refs, m, {})
  }

  /** The slot of the root; booleans and floats leave it at UID 0. */
  ghost predicate RootAt(v: Value, t: seq<Value>, root: nat) {
    match v
    case Slice(items) => exists refs, cls :: FlatSlice(t, root, refs, cls, items)
    case Data(bs) => exists refs, cls :: FlatSlice(t, root, refs, cls, Ints(bs))
    case Map(m) => exists keys, refs, cls :: FlatMap(t, root, keys, refs, cls, m)
    case Bool(_) => root == 0
    case Float(_) => root == 0
    case _ => root < |t| && t[root] == v
  }

  /**
   What one call of Marshal writes: no two slots are equal, "$null" is UID 0, and every element and key
   stands in some slot, which it may share with others.
   */
  ghost predicate FlatArchive(v: Value, a: ObjectArchive) {
    Distinct(a.objects) && |a.objects| > 0 && a.objects[0] == Str("$null") && Encodable(a)
    && RootAt(v, a.objects, a.root)
  }

  lemma CoveredGrows(t: seq<Value>, t': seq<Value>, keys: seq<Value>, names: set<string>, key: Value, k: string)
    requires Covered(t, keys, names) && t <= t' && KeyIs(t', key, k)
    ensures Covered(t', keys + [key], names + {k})
  {
    var keys' := keys + [key];
    forall j | j in names + {k} ensures exists i :: 0 <= i < |keys'| && KeyIs(t', keys'[i], j) {
      if j == k {
        assert KeyIs(t', keys'[|keys|], j);
      } else {
        var i :| 0 <= i < |keys| && KeyIs(t, keys[i], j);
        assert KeyIs(t', keys'[i], j);
      }
    }
  }

  lemma FlushGrows(keys: seq<Key>, keys': seq<Key>)
    requires keys <= keys'
    ensures Flush(keys) <= Flush(keys')
  {}

  lemma EntriesGrow(t: seq<Value>, t': seq<Value>, keys: seq<Value>, refs: seq<Value>, m: map<string, Value>,
                    rest: set<string>, k: string, key: Value, ref: Value)
    requires FlatEntries(t, keys, refs, m, rest) && t <= t' && k in rest && rest <= m.Keys
    requires FlatPair(t', key, ref, m) && t'[key.id].s == k
    ensures FlatEntries(t', keys + [key], refs + [ref], m, rest - {k})
  {
    CoveredGrows(t, t', keys, m.Keys - rest, key, k);
    assert m.Keys - rest + {k} == m.Keys - (rest - {k});
    forall i | 0 <= i < |keys| ensures FlatPair(t', keys[i], refs[i], m) {
      assert FlatPair(t, keys[i], refs[i], m);
    }
  }

  /** Slots that differ as keys differ as objects, and all of them go into a property list. */
  lemma FlushDistinct(keys: seq<Key>)
    requires AllProper(keys) && forall i, j :: 0 <= i < j < |keys| ==> keys[i] != keys[j]
    ensures Distinct(Flush(keys))
    ensures forall root :: Encodable(ObjectArchive(Flush(keys), root))
  {
    var t := Flush(keys);
    forall i | 0 <= i < |t| ensures Listable(t[i]) {
      if t[i].Map? {
        var m := t[i].entries;
        forall k | k in m ensures Listable(m[k]) {}
      }
    }
  }

  /** The root object, once its info struct has a slot of its own. */
  lemma MapPlaced(slots: seq<Key>, slots': seq<Key>, root: nat, keys: seq<Value>, refs: seq<Value>, cls: nat,
        m: map<string, Value>)
    requires slots <= slots' && FlatEntries(Flush(slots), keys, refs, m, {})
    requires cls < |slots| && slots[cls] == Pointer(ClassEntry("NSDictionary"))
    requires root < |slots'| && slots'[root] == Pointer(DictionaryInfo(keys, refs, cls))
    ensures FlatMap(Flush(slots'), root, keys, refs, cls, m)
  {
    var t, t' := Flush(slots), Flush(slots');
    forall i | 0 <= i < |keys| ensures FlatPair(t', keys[i], refs[i], m) && SameKey(t, t', keys[i]) {
      assert FlatPair(t, keys[i], refs[i], m);
    }
    FrameCovered(t, t', keys, m.Keys - {});
  }

  lemma SlicePlaced(slots: seq<Key>, slots': seq<Key>, root: nat, refs: seq<Value>, cls: nat, items: seq<Value>)
    requires slots <= slots' && FlatItems(Flush(slots), refs, items)
    requires cls < |slots| && slots[cls] == Pointer(ClassEntry("NSArray"))
    requires root < |slots'| && slots'[root] == Pointer(ArrayInfo(refs, cls))
    ensures FlatSlice(Flush(slots'), root, refs, cls, items)
  {}

  lemma ProperKeys(keys: seq<Value>, refs: seq<Value>, cls: nat)
    ensures References(keys) && References(refs) ==> Proper(Pointer(DictionaryInfo(keys, refs, cls)))
    ensures References(refs) ==> Proper(Pointer(ArrayInfo(refs, cls)))
    ensures forall name :: Proper(Pointer(ClassEntry(name)))
    ensures forall v :: Scalar(v) ==> Proper(Held(v))
  {}

  lemma NoItemsYet(t: seq<Value>)
    ensures FlatItems(t, [], [])
  {}

  lemma NothingYet(m: map<string, Value>, t: seq<Value>)
    ensures FlatEntries(t, [], [], m, m.Keys)
  {}

  /** The slots after one more value: it shares the slot of an equal one, or takes a new one. */
  ghost function Interned(keys: seq<Key>, k: Key): seq<Key> {
    if !Hashable(k) || k in keys then keys else keys + [k]
  }

  lemma MapStep(was: seq<Key>, now: seq<Key>, keys: seq<Value>, refs: seq<Value>, m: map<string, Value>,
                rest: set<string>, k: string, key: nat, ref: nat)
    requires was <= now && FlatEntries(Flush(was), keys, refs, m, rest) && k in rest && rest <= m.Keys
    requires key < |now| && now[key] == Held(Str(k)) && ref < |now| && now[ref] == Held(m[k])
    ensures FlatEntries(Flush(now), keys + [Uid(key)], refs + [Uid(ref)], m, rest - {k})
  {
    FlushGrows(was, now);
    EntriesGrow(Flush(was), Flush(now), keys, refs, m, rest, k, Uid(key), Uid(ref));
  }

  lemma SliceStep(was: seq<Key>, now: seq<Key>, refs: seq<Value>, items: seq<Value>, i: nat, ref: nat)
    requires was <= now && i < |items| && FlatItems(Flush(was), refs, items[..i])
    requires ref < |now| && now[ref] == Held(items[i])
    ensures FlatItems(Flush(now), refs + [Uid(ref)], items[..i+1])
  {}

  class NSKeyedArchiver {
    var objRefVal: seq<Key>
    var objRef: map<Key, nat>

    /** objRef and objRefVal are inverse to each other: one slot for each value, one value for each slot. */
    ghost predicate Inverse()
      reads this
    {
      |objRef| == |objRefVal|
      && (forall i :: 0 <= i < |objRefVal| ==> objRefVal[i] in objRef && objRef[objRefVal[i]] == i)
      && (forall k :: k in objRef ==> objRef[k] < |objRefVal| && objRefVal[objRef[k]] == k)
    }

    ghost predicate Empty()
      reads this
    {
      objRefVal == [] && objRef == map[]
    }

    constructor ()
      ensures Empty()
    {
      objRefVal, objRef := [], map[];
    }

    /** None is the run-time panic on an unhashable key. */
    method Id(k: Key) returns (ref: Option<nat>)
      requires Inverse()
      modifies this
      ensures Inverse()
      ensures ref.None? <==> !Hashable(k)
      ensures k.Held? && (k.v.Slice? || k.v.Map? || k.v.Data?) ==> ref.None?
      ensures k.Pointer? || k.v.Str? || k.v.Int? || k.v.Bool? || k.v.Float? || k.v.Uid? ==> ref.Some?
      ensures ref.None? ==> objRefVal == old(objRefVal)
      ensures objRefVal == Interned(old(objRefVal), k)
      ensures ref.Some? ==> ref.value < |objRefVal| && objRefVal[ref.value] == k
      ensures old(objRefVal) <= objRefVal
      ensures old(AllProper(objRefVal)) && Proper(k) ==> AllProper(objRefVal)
    {
      hide Proper;
      if !Hashable(k) { return None; }
      if k in objRef {
        return Some(objRef[k]);
      }
      var at := |objRef|;
      objRefVal := objRefVal + [k];
      objRef := objRef[k := at];
      ref := Some(at);
    }

    method Clear()
      modifies this
      ensures Empty()
    {
      objRefVal, objRef := [], map[];
    }

    method FlushToStruct() returns (objects: seq<Value>)
      ensures objects == Flush(objRefVal)
    {
      objects := [];
      for i := 0 to |objRefVal|
        invariant objects == Flush(objRefVal)[..i]
      {
        objects := objects + [objRefVal[i].v];
      }
    }

    /** The reflect.Map case: class, then key and value by turns; None is the panic on a nested value. */
    method MarshalMap(m: map<string, Value>) returns (ok: bool, keys: seq<Value>, refs: seq<Value>, cls: nat)
      requires Inverse() && AllProper(objRefVal)
      modifies this
      ensures Inverse() && AllProper(objRefVal) && old(objRefVal) <= objRefVal
      ensures ok <==> !Nested(Map(m))
      ensures ok ==> cls < |objRefVal| && objRefVal[cls] == Pointer(ClassEntry("NSDictionary"))
      ensures ok ==> FlatEntries(Flush(objRefVal), keys, refs, m, {}) && References(keys) && References(refs)
    {
      hide ClassEntry, FlatEntries, Proper, AllProper, Interned, NSKeyedArchiver.Inverse, Flush;
      ProperKeys([], [], 0);
      keys, refs := [], [];
      var c := Id(Pointer(ClassEntry("NSDictionary")));
      cls := c.value;
      var rest := m.Keys;
      NothingYet(m, Flush(objRefVal));
      while rest != {}
        invariant rest <= m.Keys
        invariant Inverse() && AllProper(objRefVal) && old(objRefVal) <= objRefVal
        invariant cls < |objRefVal| && objRefVal[cls] == Pointer(ClassEntry("NSDictionary"))
        invariant forall k :: k in m && k !in rest ==> Scalar(m[k])
        invariant FlatEntries(Flush(objRefVal), keys, refs, m, rest) && References(keys) && References(refs)
        decreases rest
      {
        var k :| k in rest;
        ghost var was := objRefVal;
        var key := Id(Held(Str(k)));
        var ref := Id(Held(m[k]));
        if ref.None? { return false, keys, refs, cls; }
        MapStep(was, objRefVal, keys, refs, m, rest, k, key.value, ref.value);
        keys, refs, rest := keys + [Uid(key.value)], refs + [Uid(ref.value)], rest - {k};
      }
      ok := true;
    }

    /** The reflect.Slice case. */
    method MarshalSlice(items: seq<Value>) returns (ok: bool, refs: seq<Value>, cls: nat)
      requires Inverse() && AllProper(objRefVal)
      modifies this
      ensures Inverse() && AllProper(objRefVal) && old(objRefVal) <= objRefVal
      ensures ok <==> !Nested(Slice(items))
      ensures ok ==> cls < |objRefVal| && objRefVal[cls] == Pointer(ClassEntry("NSArray"))
      ensures ok ==> FlatItems(Flush(objRefVal), refs, items) && References(refs)
    {
      hide ClassEntry, FlatItems, Proper, AllProper, Interned, NSKeyedArchiver.Inverse;
      ProperKeys([], [], 0);
      refs := [];
      var c := Id(Pointer(ClassEntry("NSArray")));
      cls := c.value;
      assert FlatItems(Flush(objRefVal), refs, items[..0]) by { NoItemsYet(Flush(objRefVal)); assert items[..0] == []; }
      for i := 0 to |items|
        invariant Inverse() && AllProper(objRefVal) && old(objRefVal) <= objRefVal
        invariant cls < |objRefVal| && objRefVal[cls] == Pointer(ClassEntry("NSArray"))
        invariant forall j :: 0 <= j < i ==> Scalar(items[j])
        invariant FlatItems(Flush(objRefVal), refs, items[..i]) && References(refs)
      {
        ghost var was := objRefVal;
        var ref := Id(Held(items[i]));
        if ref.None? { return false, refs, cls; }
        SliceStep(was, objRefVal, refs, items, i, ref.value);
        refs := refs + [Uid(ref.value)];
      }
      assert items[..|items|] == items;
      ok := true;
    }

    /** The switch over the kinds of the root object; None is the panic on a nested container. */
    method Encode(obj: Value) returns (root: Option<nat>)
      requires Inverse() && AllProper(objRefVal) && Domain(obj)
      modifies this
      ensures Inverse() && old(objRefVal) <= objRefVal
      ensures root.None? <==> Nested(obj)
      ensures root.Some? ==> AllProper(objRefVal) && RootAt(obj, Flush(objRefVal), root.value)
    {
      hide ClassEntry, DictionaryInfo, ArrayInfo, Proper, AllProper, FlatEntries, FlatItems, FlatMap, FlatSlice,
           Interned, NSKeyedArchiver.Inverse, References;
      ProperKeys([], [], 0);
      if obj.Map? {
        var ok, keys, refs, cls := MarshalMap(obj.entries);
        if !ok { return None; }
        ghost var was := objRefVal;
        ProperKeys(keys, refs, cls);
        root := Id(Pointer(DictionaryInfo(keys, refs, cls)));
        MapPlaced(was, objRefVal, root.value, keys, refs, cls, obj.entries);
      } else if obj.Slice? {
        var ok, refs, cls := MarshalSlice(obj.items);
        if !ok { return None; }
        root := PlaceSlice(refs, cls, obj.items);
      } else if obj.Data? {
        // the NSData object is built, and dropped in favour of an array of the bytes
        var _ := Id(Pointer(ClassEntry("NSData")));
        var ok, refs, cls := MarshalSlice(Ints(obj.bytes));
        root := PlaceSlice(refs, cls, Ints(obj.bytes));
      } else if obj.Bool? || obj.Float? {
        root := Some(0);
      } else {
        root := Id(Held(obj));
      }
    }

    method PlaceSlice(refs: seq<Value>, cls: nat, items: seq<Value>) returns (root: Option<nat>)
      requires Inverse() && AllProper(objRefVal) && References(refs) && FlatItems(Flush(objRefVal), refs, items)
      requires cls < |objRefVal| && objRefVal[cls] == Pointer(ClassEntry("NSArray"))
      modifies this
      ensures Inverse() && AllProper(objRefVal) && old(objRefVal) <= objRefVal
      ensures root.Some? && FlatSlice(Flush(objRefVal), root.value, refs, cls, items)
    {
      hide ClassEntry, ArrayInfo, Proper, AllProper, FlatItems, Interned, NSKeyedArchiver.Inverse, References,
            FlatSlice;
      ghost var was := objRefVal;
      ProperKeys([], refs, cls);
      root := Id(Pointer(ArrayInfo(refs, cls)));
      SlicePlaced(was, objRefVal, root.value, refs, cls, items);
    }

    /**
     Marshal, started as every call is on empty tables. None is the panic on a nested container, which
     leaves the tables as they are; any other way they are empty again.
     */
    method Marshal(p: Plist, obj: Value) returns (raw: Option<seq<byte>>, ghost a: ObjectArchive)
      requires Empty() && Domain(obj)
      modifies this
      ensures raw.None? <==> Nested(obj)
      ensures raw.Some? ==> Empty() && raw.value == p.marshal(a) && FlatArchive(obj, a)
    {
      hide RootAt, Proper;
      ProperKeys([], [], 0);
      var _ := Id(Held(Str("$null")));
      var root := Encode(obj);
      if root.None? { return None, ObjectArchive([], 0); }
      ghost var slots := objRefVal;
      assert forall i :: 0 <= i < |slots| ==> objRef[slots[i]] == i;
      var objects := FlushToStruct();
      FlushDistinct(slots);
      Clear();
      a := ObjectArchive(objects, root.value);
      raw := Some(p.marshal(ObjectArchive(objects, root.value)));
    }

    /** Unmarshal, on an archiver between two calls; it is so again unless the conversion panicked. */
    method Unmarshal(p: Plist, raw: seq<byte>, stack: nat) returns (r: Outcome)
      requires Empty()
      modifies this
      ensures r == Unarchive(p, raw, stack)
      ensures r.Ok? || p.unmarshal(raw).None? ==> Empty()
    {
      var archive := p.unmarshal(raw);
      if archive.None? { return PlistError; }
      for i := 0 to |archive.value.objects|
        invariant objRefVal == KeysOf(archive.value.objects)[..i] && objRef == map[]
      {
        objRefVal := objRefVal + [Held(archive.value.objects[i])];
      }
      var t := FlushToStruct();
      assert t == archive.value.objects;
      if archive.value.root >= |t| { return Panic; }
      r := ConvertValue(t, t[archive.value.root], stack);
      if r.Ok? { Clear(); }
    }
  }

  function KeysOf(t: seq<Value>): (keys: seq<Key>)
    ensures |keys| == |t| && Flush(keys) == t
  {
    seq(|t|, i requires 0 <= i < |t| => Held(t[i]))
  }

  // ---------------------------------------------------------------------------------------------
  // The interning round trip
  // ---------------------------------------------------------------------------------------------

  /** Scalars the decoder returns as they are. */
  predicate Atom(v: Value) { Scalar(v) && !v.Uid? }

  /** Strings, integers, and slices and maps of atoms. */
  ghost predicate ComesBack(v: Value) {
    match v
    case Str(_) => true
    case Int(_) => true
    case Slice(items) => forall i :: 0 <= i < |items| ==> Atom(items[i])
    case Map(m) => forall k :: k in m ==> Atom(m[k])
    case _ => false
  }

  lemma SharedArray(t: seq<Value>, u: nat, refs: seq<Value>, cls: nat, items: seq<Value>, stack: nat)
    requires FlatSlice(t, u, refs, cls, items) && stack > 0
    ensures Convert(t, t[u], stack) == ConvertItems(t, refs, |refs|, stack - 1)
  {
    hide Convert, ConvertItems, FlatItems;
    ConvertArrayMap(t, t[u].entries, stack);
  }

  lemma SharedDictionary(t: seq<Value>, u: nat, keys: seq<Value>, refs: seq<Value>, cls: nat, m: map<string, Value>,
        stack: nat)
    requires FlatMap(t, u, keys, refs, cls, m) && stack > 0
    ensures Convert(t, t[u], stack) == ConvertEntries(t, keys, refs, |keys|, stack - 1)
  {
    hide Convert, ConvertEntries, FlatEntries;
    ConvertDictionaryMap(t, t[u].entries, stack);
  }

  lemma {:induction false} AtomItems(t: seq<Value>, refs: seq<Value>, items: seq<Value>, n: nat, stack: nat)
    requires FlatItems(t, refs, items) && n <= |items| && stack >= 2 && forall i :: 0 <= i < |items| ==> Atom(items[i])
    ensures ConvertItems(t, refs, n, stack) == Ok(Slice(items[..n]))
    decreases n
  {
    if n > 0 {
      AtomItems(t, refs, items, n - 1, stack);
      ConvertUid(t, refs[n-1].id, stack);
      ConvertScalar(t, items[n-1], stack - 1);
      assert items[..n] == items[..n-1] + [items[n-1]];
    } else {
      assert items[..0] == [];
    }
  }

  lemma {:induction false} AtomEntries(t: seq<Value>, keys: seq<Value>, refs: seq<Value>, m: map<string, Value>,
        n: nat, stack: nat)
    requires FlatEntries(t, keys, refs, m, {}) && n <= |keys| && stack >= 1 && forall k :: k in m ==> Atom(m[k])
    ensures EntriesSoFar(t, keys, n, m, ConvertEntries(t, keys, refs, n, stack))
    decreases n
  {
    if n > 0 {
      AtomEntries(t, keys, refs, m, n - 1, stack);
      assert FlatPair(t, keys[n-1], refs[n-1], m);
      var k := t[keys[n-1].id].s;
      ConvertScalar(t, m[k], stack);
      EntriesStep(t, keys, refs, n, m, k, stack);
    }
  }

  lemma AtomMap(t: seq<Value>, keys: seq<Value>, refs: seq<Value>, m: map<string, Value>, stack: nat)
    requires FlatEntries(t, keys, refs, m, {}) && stack >= 1 && forall k :: k in m ==> Atom(m[k])
    ensures ConvertEntries(t, keys, refs, |keys|, stack) == Ok(Map(m))
  {
    AtomEntries(t, keys, refs, m, |keys|, stack);
    hide ConvertEntries;
    var r := ConvertEntries(t, keys, refs, |keys|, stack).value.entries;
    forall k | k in m ensures k in r {
      assert k in m.Keys - {};
      var i :| 0 <= i < |keys| && KeyIs(t, keys[i], k);
      assert t[keys[i].id].s == k;
    }
    assert r == m;
  }

  /** An element that is a UID is chased, so it cannot come back. */
  lemma UidItem(t: seq<Value>, refs: seq<Value>, items: seq<Value>, stack: nat, i: nat)
    requires FlatItems(t, refs, items) && i < |items| && items[i].Uid?
    ensures ConvertItems(t, refs, |refs|, stack) != Ok(Slice(items))
  {
    hide Convert, ConvertItems;
    if ConvertItems(t, refs, |refs|, stack) == Ok(Slice(items)) {
      ItemsPointwise(t, refs, |refs|, stack, i);
      ConvertNeverUid(t, refs[i], stack);
    }
  }

  lemma UidEntry(t: seq<Value>, keys: seq<Value>, refs: seq<Value>, m: map<string, Value>, stack: nat, k: string)
    requires FlatEntries(t, keys, refs, m, {}) && k in m && m[k].Uid?
    ensures ConvertEntries(t, keys, refs, |keys|, stack) != Ok(Map(m))
  {
    hide Convert, ConvertEntries;
    if ConvertEntries(t, keys, refs, |keys|, stack) == Ok(Map(m)) {
      var i := EntriesPointwise(t, keys, refs, |keys|, stack, k);
      ConvertNeverUid(t, t[refs[i].id], stack);
    }
  }

  /**
   Marshal followed by Unmarshal gives back what it was given, despite shared slots, if and only if that
   is a string, an integer, or a slice or string-keyed map of scalars other than UIDs. A boolean or a
   float comes back as the string "$null", a byte slice as a slice of integers.
   */
  lemma InterningRoundTrip(p: Plist, v: Value, a: ObjectArchive, stack: nat)
    requires p.Keeps(a) && Domain(v) && !Nested(v) && FlatArchive(v, a) && stack >= 3
    ensures Unarchive(p, p.marshal(a), stack) == Ok(v) <==> ComesBack(v)
    ensures v.Bool? || v.Float? ==> Unarchive(p, p.marshal(a), stack) == Ok(Str("$null"))
    ensures v.Data? ==> Unarchive(p, p.marshal(a), stack) == Ok(Slice(Ints(v.bytes)))
  {
    hide Convert, ConvertItems, ConvertEntries, FlatItems, FlatEntries, Distinct;
    var t, u := a.objects, a.root;
    if v.Slice? {
      RootInside(v, t, u);
      SliceBack(t, u, v.items, stack);
    } else if v.Data? {
      RootInside(v, t, u);
      SliceBack(t, u, Ints(v.bytes), stack);
    } else if v.Map? {
      RootInside(v, t, u);
      MapBack(t, u, v.entries, stack);
    } else if v.Uid? {
      ConvertNeverUid(t, t[u], stack);
    } else {
      ConvertScalar(t, t[u], stack);
    }
  }

  lemma RootInside(v: Value, t: seq<Value>, u: nat)
    requires (v.Slice? || v.Data? || v.Map?) && RootAt(v, t, u)
    ensures u < |t|
  {}

  lemma SliceBack(t: seq<Value>, u: nat, items: seq<Value>, stack: nat)
    requires (exists refs, cls :: FlatSlice(t, u, refs, cls, items)) && stack >= 3
    requires forall i :: 0 <= i < |items| ==> Scalar(items[i])
    ensures u < |t|
            && (Convert(t, t[u], stack) == Ok(Slice(items)) <==> forall i :: 0 <= i < |items| ==> Atom(items[i]))
  {
    hide Convert, ConvertItems;
    var refs, cls :| FlatSlice(t, u, refs, cls, items);
    SharedArray(t, u, refs, cls, items, stack);
    if i :| 0 <= i < |items| && !Atom(items[i]) {
      UidItem(t, refs, items, stack - 1, i);
    } else {
      AtomItems(t, refs, items, |items|, stack - 1);
      assert items[..|items|] == items;
    }
  }

  lemma MapBack(t: seq<Value>, u: nat, m: map<string, Value>, stack: nat)
    requires (exists keys, refs, cls :: FlatMap(t, u, keys, refs, cls, m)) && stack >= 3
    requires forall k :: k in m ==> Scalar(m[k])
    ensures u < |t| && (Convert(t, t[u], stack) == Ok(Map(m)) <==> forall k :: k in m ==> Atom(m[k]))
  {
    hide Convert, ConvertEntries;
    var keys, refs, cls :| FlatMap(t, u, keys, refs, cls, m);
    SharedDictionary(t, u, keys, refs, cls, m, stack);
    if k :| k in m && !Atom(m[k]) {
      UidEntry(t, keys, refs, m, stack - 1, k);
    } else {
      AtomMap(t, keys, refs, m, stack - 1);
    }
  }
}
