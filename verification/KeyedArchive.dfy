/**
 The two independently written halves of the keyed-object-graph codec put together:
 nskeyedarchiver.Marshal on one side, NSKeyedArchiver.Unmarshal on the other.
 */
module KeyedArchive {
  import opened Bytes
  import opened GoValues
  import opened Unarchiver
  import opened Archiver
  import opened Divergence

  // ---------------------------------------------------------------------------------------------
  // Plain values come back, and nothing else does
  // ---------------------------------------------------------------------------------------------

  /** How the decoder takes an array and a dictionary. */
  lemma ConvertArrayMap(t: seq<Value>, m: map<string, Value>, stack: nat)
    requires ClassName(t, m) == Some("NSArray") && SliceAt(m, "NS.objects") && stack > 0
    ensures var values := m["NS.objects"].items;
            Convert(t, Map(m), stack) == ConvertItems(t, values, |values|, stack - 1)
  {
    hide ConvertItems, ConvertEntries, ClassName;
  }

  lemma ConvertDictionaryMap(t: seq<Value>, m: map<string, Value>, stack: nat)
    requires ClassName(t, m) == Some("NSDictionary") && SliceAt(m, "NS.keys") && SliceAt(m, "NS.objects") && stack > 0
    ensures var keys := m["NS.keys"].items;
            Convert(t, Map(m), stack) == ConvertEntries(t, keys, m["NS.objects"].items, |keys|, stack - 1)
  {
    hide ConvertItems, ConvertEntries, ClassName;
  }

  lemma ConvertArrayAt(t: seq<Value>, u: nat, stack: nat)
    requires ArrayAt(t, u) && stack > 0
    ensures Convert(t, t[u], stack) == ConvertItems(t, Objects(t, u), |Objects(t, u)|, stack - 1)
  {
    hide Convert, ConvertItems;
    ConvertArrayMap(t, t[u].entries, stack);
  }

  lemma ConvertDictionaryAt(t: seq<Value>, u: nat, stack: nat)
    requires DictionaryAt(t, u) && stack > 0
    ensures Convert(t, t[u], stack) == ConvertEntries(t, Keys(t, u), Objects(t, u), |Keys(t, u)|, stack - 1)
  {
    hide Convert, ConvertEntries;
    ConvertDictionaryMap(t, t[u].entries, stack);
  }

  /** What a table reads as a plain value, the decoder rebuilds as that value. */
  lemma {:induction false} ConvertBack(t: seq<Value>, u: nat, v: Value, stack: nat)
    requires Represents(t, u, v) && Plain(v) && stack >= 2 * Size(v)
    ensures u < |t| && Convert(t, t[u], stack) == Ok(v)
    decreases v, 1
  {
    hide Convert, ConvertItems, ConvertEntries, SliceSize, EntriesSize, ArrayAt, DictionaryAt, Objects, Keys;
    match v {
      case Slice(items) =>
        ConvertArrayAt(t, u, stack);
        ItemsBack(t, u, Objects(t, u), items, |items|, stack - 1);
        assert items[..|items|] == items;
      case Map(m) =>
        ConvertDictionaryAt(t, u, stack);
        EntriesBack(t, u, Keys(t, u), Objects(t, u), v, |m|, stack - 1);
        EntriesAll(t, u, Keys(t, u), Objects(t, u), v, stack - 1);
      case _ => ConvertScalar(t, v, stack);
    }
  }

  lemma ConvertScalar(t: seq<Value>, v: Value, stack: nat)
    requires stack > 0 && !v.Map? && !v.Uid?
    ensures Convert(t, v, stack) == Ok(v)
  {}

  lemma ConvertUid(t: seq<Value>, id: nat, stack: nat)
    requires stack > 0 && id < |t|
    ensures Convert(t, Uid(id), stack) == Convert(t, t[id], stack - 1)
  {}

  lemma {:induction false} ItemsBack(t: seq<Value>, u: nat, refs: seq<Value>, items: seq<Value>, n: nat, stack: nat)
    requires RepresentsItems(t, u, refs, items) && n <= |items| && stack >= 2 * SliceSize(items) + 1
    requires forall i :: 0 <= i < |items| ==> Plain(items[i])
    ensures ConvertItems(t, refs, n, stack) == Ok(Slice(items[..n]))
    decreases items, 0, n
  {
    hide SliceSize, Convert, Represents;
    if n > 0 {
      ItemsBack(t, u, refs, items, n - 1, stack);
      SliceSizeAt(items, n - 1);
      ConvertUid(t, refs[n-1].id, stack);
      ConvertBack(t, refs[n-1].id, items[n-1], stack - 1);
      assert items[..n] == items[..n-1] + [items[n-1]];
    } else {
      assert items[..0] == [];
    }
  }

  /** The map rebuilt from the first n pairs agrees with m and has their keys. */
  ghost predicate EntriesSoFar(t: seq<Value>, keys: seq<Value>, n: nat, m: map<string, Value>, r: Outcome)
    requires n <= |keys|
  {
    r.Ok? && r.value.Map?
    && (forall k :: k in r.value.entries ==> k in m && r.value.entries[k] == m[k])
    && (forall i :: 0 <= i < n ==> InTable(t, keys[i]) && t[keys[i].id].Str? && t[keys[i].id].s in r.value.entries)
  }

  lemma {:induction false} EntriesBack(t: seq<Value>, u: nat, keys: seq<Value>, refs: seq<Value>, v: Value, n: nat,
        stack: nat)
    requires v.Map? && RepresentsEntries(t, u, keys, refs, v) && n <= |keys| && stack + 1 >= 2 * Size(v)
    requires Plain(v)
    ensures EntriesSoFar(t, keys, n, v.entries, ConvertEntries(t, keys, refs, n, stack))
    decreases v, 0, n
  {
    hide Represents, RepresentsEntries, Size, Convert, EntriesSoFar, ConvertEntries;
    if n == 0 {
      NoEntriesYet(t, keys, refs, v.entries, stack);
    } else {
      EntriesBack(t, u, keys, refs, v, n - 1, stack);
      PairAt(t, u, keys, refs, v, n - 1);
      var k := t[keys[n-1].id].s;
      EntrySmaller(v.entries, k);
      ConvertBack(t, refs[n-1].id, v.entries[k], stack);
      EntriesStep(t, keys, refs, n, v.entries, k, stack);
    }
  }

  lemma NoEntriesYet(t: seq<Value>, keys: seq<Value>, refs: seq<Value>, m: map<string, Value>, stack: nat)
    ensures EntriesSoFar(t, keys, 0, m, ConvertEntries(t, keys, refs, 0, stack))
  {}

  lemma PairAt(t: seq<Value>, u: nat, keys: seq<Value>, refs: seq<Value>, v: Value, i: nat)
    requires v.Map? && RepresentsEntries(t, u, keys, refs, v) && i < |keys|
    ensures |refs| == |keys| && InTable(t, keys[i]) && t[keys[i].id].Str? && t[keys[i].id].s in v.entries
    ensures InTable(t, refs[i]) && Represents(t, refs[i].id, v.entries[t[keys[i].id].s])
  {
    hide Represents, Covered;
    assert EntryPair(t, u, keys[i], refs[i], v);
  }

  lemma EntriesStep(t: seq<Value>, keys: seq<Value>, refs: seq<Value>, n: nat, m: map<string, Value>, k: string,
        stack: nat)
    requires 0 < n <= |keys| == |refs| && InTable(t, keys[n-1]) && t[keys[n-1].id] == Str(k) && k in m
    requires EntriesSoFar(t, keys, n - 1, m, ConvertEntries(t, keys, refs, n - 1, stack))
    requires InTable(t, refs[n-1]) && Convert(t, t[refs[n-1].id], stack) == Ok(m[k])
    ensures EntriesSoFar(t, keys, n, m, ConvertEntries(t, keys, refs, n, stack))
  {
    hide Convert;
  }

  lemma EntriesAll(t: seq<Value>, u: nat, keys: seq<Value>, refs: seq<Value>, v: Value, stack: nat)
    requires v.Map? && RepresentsEntries(t, u, keys, refs, v)
    requires EntriesSoFar(t, keys, |keys|, v.entries, ConvertEntries(t, keys, refs, |keys|, stack))
    ensures ConvertEntries(t, keys, refs, |keys|, stack) == Ok(v)
  {
    hide Represents, ConvertEntries;
    var r := ConvertEntries(t, keys, refs, |keys|, stack).value.entries;
    forall k | k in v.entries ensures k in r {
      var i :| 0 <= i < |keys| && KeyIs(t, keys[i], k);
      assert t[keys[i].id].s == k;
    }
    assert r == v.entries;
  }

  /** What the decoder delivers for a slice it delivers item by item. */
  lemma {:induction false} ItemsPointwise(t: seq<Value>, values: seq<Value>, n: nat, stack: nat, i: nat)
    requires i < n <= |values| && ConvertItems(t, values, n, stack).Ok?
    ensures Convert(t, values[i], stack) == Ok(ConvertItems(t, values, n, stack).value.items[i])
    decreases n
  {
    if i < n - 1 { ItemsPointwise(t, values, n - 1, stack, i); }
  }

  /** What it delivers under a key of a dictionary stood behind one of the pairs with that key. */
  lemma {:induction false} EntriesPointwise(t: seq<Value>, keys: seq<Value>, values: seq<Value>, n: nat, stack: nat,
        k: string)
      returns (i: nat)
    requires n <= |keys| && ConvertEntries(t, keys, values, n, stack).Ok?
    requires k in ConvertEntries(t, keys, values, n, stack).value.entries
    ensures i < n && i < |values| && InTable(t, values[i]) && KeyString(t, keys[i]) == Some(k)
    ensures Convert(t, t[values[i].id], stack) == Ok(ConvertEntries(t, keys, values, n, stack).value.entries[k])
    decreases n
  {
    if KeyString(t, keys[n-1]) == Some(k) {
      i := n - 1;
    } else {
      i := EntriesPointwise(t, keys, values, n - 1, stack, k);
    }
  }

  /** A value with a part that is not plain never comes back, however much stack there is. */
  lemma {:induction false} NeverBack(t: seq<Value>, u: nat, v: Value, stack: nat)
    requires Represents(t, u, v) && !Plain(v)
    ensures u < |t| && Convert(t, t[u], stack) != Ok(v)
    decreases v
  {
    hide Convert;
    if v.Slice? {
      NeverBackItems(t, u, v, stack);
    } else if v.Map? {
      NeverBackEntries(t, u, v, stack);
    } else if v.Uid? {
      ConvertNeverUid(t, t[u], stack);
    } else if v.Data? || v.NSURL? || v.NSUUID? || v.XCTestConfiguration? {
      if Convert(t, t[u], stack).Ok? { ConvertMap(t, t[u], stack); }
    }
  }

  /** An object map is decoded as a container, an unconverted map, a data object or a Go struct of the decoder. */
  lemma ConvertMap(t: seq<Value>, v: Value, stack: nat)
    requires Convert(t, v, stack).Ok? && v.Map?
    ensures var r := Convert(t, v, stack).value;
            !r.NSURL? && !r.NSUUID? && !r.XCTestConfiguration?
            && (ArrayClass(ClassName(t, v.entries).value) ==> r.Slice?)
  {}

  lemma {:induction false} NeverBackItems(t: seq<Value>, u: nat, v: Value, stack: nat)
    requires v.Slice? && ArrayAt(t, u) && RepresentsItems(t, u, Objects(t, u), v.items) && !Plain(v)
    ensures u < |t| && Convert(t, t[u], stack) != Ok(v)
    decreases v, 0
  {
    hide Represents, RepresentsItems, ConvertItems;
    var i :| 0 <= i < |v.items| && !Plain(v.items[i]);
    if stack > 0 && Convert(t, t[u], stack) == Ok(v) {
      ConvertArrayAt(t, u, stack);
      hide *;
      var id := ItemBack(t, u, Objects(t, u), v, stack - 1, i);
      NeverBack(t, id, v.items[i], stack - 2);
    }
  }

  /** If the items of an array came back, so did what stands behind each reference. */
  lemma ItemBack(t: seq<Value>, u: nat, refs: seq<Value>, v: Value, stack: nat, i: nat) returns (id: nat)
    requires v.Slice? && RepresentsItems(t, u, refs, v.items) && i < |v.items|
    requires ConvertItems(t, refs, |refs|, stack) == Ok(v)
    ensures stack > 0 && id < |t| && Represents(t, id, v.items[i]) && Convert(t, t[id], stack - 1) == Ok(v.items[i])
  {
    id := refs[i].id;
    ItemsPointwise(t, refs, |refs|, stack, i);
    hide Represents, ConvertItems;
    if stack > 0 { ConvertUid(t, id, stack); }
  }

  /** If the pairs of a dictionary came back, so did what stands under each of its keys. */
  lemma EntryBack(t: seq<Value>, u: nat, keys: seq<Value>, refs: seq<Value>, v: Value, stack: nat, k: string)
      returns (id: nat)
    requires v.Map? && RepresentsEntries(t, u, keys, refs, v) && k in v.entries
    requires ConvertEntries(t, keys, refs, |keys|, stack) == Ok(v)
    ensures id < |t| && Represents(t, id, v.entries[k]) && Convert(t, t[id], stack) == Ok(v.entries[k])
  {
    hide Represents, ConvertEntries, Convert, Covered;
    var i := EntriesPointwise(t, keys, refs, |keys|, stack, k);
    assert EntryPair(t, u, keys[i], refs[i], v);
    id := refs[i].id;
  }

  lemma {:induction false} NeverBackEntries(t: seq<Value>, u: nat, v: Value, stack: nat)
    requires v.Map? && DictionaryAt(t, u) && RepresentsEntries(t, u, Keys(t, u), Objects(t, u), v) && !Plain(v)
    ensures u < |t| && Convert(t, t[u], stack) != Ok(v)
    decreases v, 0
  {
    hide Represents, RepresentsEntries, ConvertEntries;
    var k :| k in v.entries && !Plain(v.entries[k]);
    if stack > 0 && Convert(t, t[u], stack) == Ok(v) {
      ConvertDictionaryAt(t, u, stack);
      hide *;
      var id := EntryBack(t, u, Keys(t, u), Objects(t, u), v, stack - 1, k);
      NeverBack(t, id, v.entries[k], stack - 1);
    }
  }

  /** No float, nil or Go struct stands anywhere in the value. */
  ghost predicate Tame(v: Value) {
    match v
    case Slice(items) => forall i :: 0 <= i < |items| ==> Tame(items[i])
    case Map(m) => forall k :: k in m ==> Tame(m[k])
    case _ => v.Str? || v.Bool? || v.Int? || v.Uid? || v.Data?
  }

  lemma UnarchivableNotTame(v: Value)
    requires !Archivable(v)
    ensures !Tame(v)
  {}

  /** How an object map of an archiver is decoded, if it is. */
  lemma KnownOutcome(t: seq<Value>, m: map<string, Value>, stack: nat)
    requires Entries(t) && stack > 0 && Convert(t, Map(m), stack).Ok?
    ensures ClassName(t, m).Some?
    ensures var r, name := Convert(t, Map(m), stack), ClassName(t, m).value;
            if DictionaryClass(name) then
              SliceAt(m, "NS.keys") && SliceAt(m, "NS.objects") && var keys := m["NS.keys"].items;
              r == ConvertEntries(t, keys, m["NS.objects"].items, |keys|, stack - 1)
            else if ArrayClass(name) then
              SliceAt(m, "NS.objects") && var values := m["NS.objects"].items;
              r == ConvertItems(t, values, |values|, stack - 1)
            else r == Ok(Map(m))
  {
    KnownClass(t, m);
    hide ClassName, ConvertEntries, ConvertItems, Truncate, Entry, Entries;
  }

  /** Nothing an archiver puts into a table is decoded as a float, a nil or a Go struct. */
  lemma {:induction false} ConvertTame(t: seq<Value>, v: Value, stack: nat)
    requires Entries(t) && Entry(v)
    ensures Convert(t, v, stack).Ok? ==> Tame(Convert(t, v, stack).value)
    decreases stack, 0
  {
    if stack > 0 && Convert(t, v, stack).Ok? {
      match v {
        case Map(m) =>
          KnownOutcome(t, m, stack);
          hide Convert, ClassName, Entry;
          var name := ClassName(t, m).value;
          if DictionaryClass(name) {
            EntriesTame(t, m["NS.keys"].items, m["NS.objects"].items, |m["NS.keys"].items|, stack - 1);
          } else if ArrayClass(name) {
            FieldEntries(m, "NS.objects");
            ItemsTame(t, m["NS.objects"].items, |m["NS.objects"].items|, stack - 1);
          } else {
            FieldsOf(m);
            FieldsTame(m);
          }
        case Uid(id) => ConvertTame(t, t[id], stack - 1);
        case _ =>
      }
    }
  }

  lemma KnownClass(t: seq<Value>, m: map<string, Value>)
    requires Entries(t)
    ensures ClassName(t, m).Some? ==> ClassName(t, m).value == "" || Known(ClassName(t, m).value)
  {
    if ClassName(t, m).Some? {
      var c := t[m["$class"].id];
      assert Entry(c);
      assert "$classname" in c.entries && c.entries["$classname"].Str? ==> Known(c.entries["$classname"].s);
    }
  }

  lemma FieldsOf(m: map<string, Value>)
    requires Entry(Map(m))
    ensures forall k :: k in m ==> Field(m[k])
  {}

  lemma FieldEntries(m: map<string, Value>, k: string)
    requires Entry(Map(m)) && SliceAt(m, k)
    ensures forall i :: 0 <= i < |m[k].items| ==> Entry(m[k].items[i])
  {
    FieldsOf(m);
    assert Field(m[k]);
  }

  lemma FieldsTame(m: map<string, Value>)
    requires forall k :: k in m ==> Field(m[k])
    ensures Tame(Map(m))
  {
    forall k | k in m ensures Tame(m[k]) { assert Field(m[k]); }
  }

  lemma {:induction false} EntriesTame(t: seq<Value>, keys: seq<Value>, values: seq<Value>, n: nat, stack: nat)
    requires Entries(t) && n <= |keys| && ConvertEntries(t, keys, values, n, stack).Ok?
    ensures Tame(ConvertEntries(t, keys, values, n, stack).value)
    decreases stack, 1, n
  {
    if n > 0 {
      EntriesTame(t, keys, values, n - 1, stack);
      ConvertTame(t, t[values[n-1].id], stack);
    }
  }

  lemma {:induction false} ItemsTame(t: seq<Value>, values: seq<Value>, n: nat, stack: nat)
    requires Entries(t) && n <= |values| && ConvertItems(t, values, n, stack).Ok?
    requires forall i :: 0 <= i < |values| ==> Entry(values[i])
    ensures Tame(ConvertItems(t, values, n, stack).value)
    decreases stack, 1, n
  {
    if n > 0 {
      ItemsTame(t, values, n - 1, stack);
      ConvertTame(t, values[n-1], stack);
    }
  }

  // ---------------------------------------------------------------------------------------------
  // Termination of the decoder
  // ---------------------------------------------------------------------------------------------

  /** Every reference the decoder may follow from a value standing at slot lo leads to a later slot of the table. */
  ghost predicate Onward(t: seq<Value>, v: Value, lo: nat) {
    match v
    case Uid(id) => lo < id < |t|
    case Slice(items) => forall i :: 0 <= i < |items| ==> Onward(t, items[i], lo)
    case Map(m) =>
      ("NS.objects" in m && m["NS.objects"].Slice? ==> Onward(t, m["NS.objects"], lo))
      && (IsError(t, m) ==> Onward(t, m["NSUserInfo"], lo))
    case _ => true
  }

  ghost predicate OnwardFrom(t: seq<Value>, from: nat) {
    forall i :: from <= i < |t| ==> Onward(t, t[i], i)
  }

  /** The tables of an archiver name no error class. */
  lemma {:induction false} ForwardOnward(t: seq<Value>, v: Value, lo: nat)
    requires Entries(t) && Forward(v, lo, |t|)
    ensures Onward(t, v, lo)
    decreases v
  {
    match v {
      case Slice(items) =>
        forall i | 0 <= i < |items| ensures Onward(t, items[i], lo) { ForwardOnward(t, items[i], lo); }
      case Map(m) =>
        if "NS.objects" in m && m["NS.objects"].Slice? { ForwardOnward(t, m["NS.objects"], lo); }
        KnownClass(t, m);
      case _ =>
    }
  }

  /** The slots of a loop would have to come later and later. */
  lemma {:induction false} NoOnwardLoop(t: seq<Value>, lo: nat, v: Value, loop: iset<Value>)
    requires OnwardFrom(t, lo) && lo <= |t| && Onward(t, v, lo) && v in loop && Endless(t, loop)
    ensures false
    decreases |t| - lo, v
  {
    hide Endless, Converts;
    var y := NextInLoop(t, loop, v);
    var i: nat :| Reaches(t, v, i) && Sub(t, v, i) == Some(y);
    match v {
      case Uid(id) => NoOnwardLoop(t, id, y, loop);
      case Map(m) =>
        if IsDictionary(t, m) {
          var ref := m["NS.objects"].items[i];
          assert Onward(t, m["NS.objects"], lo) && Onward(t, ref, lo);
          NoOnwardLoop(t, ref.id, y, loop);
        } else if IsArray(t, m) {
          assert Onward(t, m["NS.objects"], lo) && Onward(t, y, lo);
          NoOnwardLoop(t, lo, y, loop);
        } else {
          NoOnwardLoop(t, m["NSUserInfo"].id, y, loop);
        }
    }
  }

  /** Where every reference the decoder may follow leads to a later slot, some number of nested calls is enough. */
  lemma ConvertTerminates(t: seq<Value>, lo: nat, v: Value) returns (enough: nat)
    requires OnwardFrom(t, lo) && lo <= |t| && Onward(t, v, lo)
    ensures forall stack :: stack >= enough ==> !Convert(t, v, stack).StackOverflow?
  {
    hide Convert, Onward, OnwardFrom, Endless, Diverges;
    DivergesIff(t, v);
    if loop: iset<Value> :| v in loop && Endless(t, loop) { NoOnwardLoop(t, lo, v, loop); }
    enough := EnoughStack(t, v);
  }

  // ---------------------------------------------------------------------------------------------
  // Marshal and Unmarshal
  // ---------------------------------------------------------------------------------------------

  /** The part of an archive property list that is not constant: $objects and $top.root. */
  datatype ObjectArchive = ObjectArchive(objects: seq<Value>, root: nat)

  /** A value a property list can hold. */
  ghost predicate Listable(v: Value) {
    match v
    case Slice(items) => forall i :: 0 <= i < |items| ==> Listable(items[i])
    case Map(m) => forall k :: k in m ==> Listable(m[k])
    case _ => v.Str? || v.Bool? || v.Int? || v.Float? || v.Uid? || v.Data?
  }

  ghost predicate Encodable(a: ObjectArchive) {
    forall i :: 0 <= i < |a.objects| ==> Listable(a.objects[i])
  }

  /** The binary property list library: two functions nothing else is known of. */
  datatype Plist = Plist(marshal: ObjectArchive -> seq<byte>, unmarshal: seq<byte> -> Option<ObjectArchive>) {
    /**
     What is assumed of it for an archive at hand: if a property list can hold it, it survives, and is
     not nothing.
     */
    ghost predicate Keeps(a: ObjectArchive) {
      Encodable(a) ==> unmarshal(marshal(a)) == Some(a) && marshal(a) != []
    }
  }

  /** Any list of archives is kept by some such pair: the assumption can be met for all archives of a run at once. */
  lemma SomePlistKeeps(archives: seq<ObjectArchive>) returns (p: Plist)
    ensures forall a :: a in archives ==> p.Keeps(a)
  {
    p := Plist(a => seq(FirstAt(archives, a) + 1, _ => 0),
               raw => if 0 < |raw| <= |archives| then Some(archives[|raw| - 1]) else None);
    forall a | a in archives ensures FirstAt(archives, a) < |archives| && archives[FirstAt(archives, a)] == a {
      FirstAtIs(archives, a);
    }
  }

  function FirstAt(archives: seq<ObjectArchive>, a: ObjectArchive): nat {
    if archives == [] || archives[0] == a then 0 else FirstAt(archives[1..], a) + 1
  }

  lemma {:induction false} FirstAtIs(archives: seq<ObjectArchive>, a: ObjectArchive)
    requires a in archives
    ensures FirstAt(archives, a) < |archives| && archives[FirstAt(archives, a)] == a
    decreases |archives|
  {
    if archives[0] != a { FirstAtIs(archives[1..], a); }
  }

  /** What Unmarshal makes of a byte string, with `stack` nested calls to spend. */
  function Unarchive(p: Plist, raw: seq<byte>, stack: nat): Outcome {
    match p.unmarshal(raw)
    case None => PlistError
    case Some(a) => if a.root < |a.objects| then Convert(a.objects, a.objects[a.root], stack) else Panic
  }

  /**
   The tables Marshal may build of v, over all enumeration orders of the maps in it. Of the table of a
   value with an unsupported part only the kind of entries and the direction of references is said.
   */
  ghost predicate TableOf(v: Value, t: seq<Value>) {
    !Crashes(v) && Entries(t)
    && if Archivable(v) then Placed([Str("$null")], v, t) else UidFree(v) ==> ForwardFrom(t, 0)
  }

  /** nskeyedarchiver.Marshal: None when it panics. */
  method Marshal(p: Plist, v: Value) returns (raw: Option<seq<byte>>, ghost t: seq<Value>)
    ensures raw.None? <==> Crashes(v)
    ensures raw.Some? ==> TableOf(v, t) && raw == Some(p.marshal(ObjectArchive(t, 1)))
  {
    var f := Archive([Str("$null")], v);
    if f.Panicked? { return None, []; }
    t := f.objects;
    raw := Some(p.marshal(ObjectArchive(f.objects, 1)));
  }

  lemma {:induction false} EntriesEncodable(t: seq<Value>)
    requires Entries(t)
    ensures Encodable(ObjectArchive(t, 1))
  {
    forall i | 0 <= i < |t| ensures Listable(t[i]) {
      if t[i].Map? {
        var m := t[i].entries;
        forall k | k in m ensures Listable(m[k]) { assert Field(m[k]); }
      }
    }
  }

  /**
   The round trip, for every value, every enumeration order and any stack deep enough for the value:
   Unmarshal gives back what Marshal was given if and only if the value is built of strings, booleans,
   integers, slices and string-keyed maps alone.
   */
  lemma RoundTrip(p: Plist, v: Value, t: seq<Value>, stack: nat)
    requires p.Keeps(ObjectArchive(t, 1)) && TableOf(v, t)
    ensures stack >= 2 * Size(v) ==> (Unarchive(p, p.marshal(ObjectArchive(t, 1)), stack) == Ok(v) <==> Plain(v))
    ensures !Plain(v) ==> Unarchive(p, p.marshal(ObjectArchive(t, 1)), stack) != Ok(v)
  {
    EntriesEncodable(t);
    assert Unarchive(p, p.marshal(ObjectArchive(t, 1)), stack) == if 1 < |t| then Convert(t, t[1], stack) else Panic;
    hide Convert;
    if !Archivable(v) {
      UnarchivableNotTame(v);
      if 1 < |t| { ConvertTame(t, t[1], stack); }
      if Plain(v) { PlainArchivable(v); }
    } else if Plain(v) {
      if stack >= 2 * Size(v) { ConvertBack(t, 1, v, stack); }
    } else {
      NeverBack(t, 1, v, stack);
    }
  }

  /** Decoding what Marshal made of a value ends, unless the caller put UIDs of its own into the value. */
  lemma MarshalledTerminates(v: Value, t: seq<Value>) returns (enough: nat)
    requires TableOf(v, t) && UidFree(v)
    ensures |t| > 1 ==> forall stack :: stack >= enough ==> !Convert(t, t[1], stack).StackOverflow?
  {
    hide Represents, Forward, UidFree, Onward, Convert;
    enough := 0;
    if |t| > 1 {
      forall i | 1 <= i < |t| ensures Onward(t, t[i], i) { ForwardOnward(t, t[i], i); }
      enough := ConvertTerminates(t, 1, t[1]);
    }
  }

  /** With UIDs of its own it ends on some stack if and only if the root stands in no loop. */
  lemma MarshalledEndsIff(v: Value, t: seq<Value>)
    requires TableOf(v, t) && |t| > 1
    ensures (exists enough: nat :: !Convert(t, t[1], enough).StackOverflow?)
       <==> !exists loop: iset<Value> :: t[1] in loop && Endless(t, loop)
    ensures (exists loop: iset<Value> :: t[1] in loop && Endless(t, loop)) ==> !UidFree(v)
  {
    hide Convert, Endless, UidFree, Represents;
    DivergesIff(t, t[1]);
    if !Diverges(t, t[1]) {
      var enough := EnoughStack(t, t[1]);
      assert !Convert(t, t[1], enough).StackOverflow?;
    }
    if UidFree(v) {
      var enough := MarshalledTerminates(v, t);
      assert !Convert(t, t[1], enough).StackOverflow?;
    }
  }

  /** The root that is UID 1 stands in a loop. */
  lemma OwnUidLoops()
    ensures var t := [Str("$null"), Uid(1)];
            TableOf(Uid(1), t) && Archivable(Uid(1)) && Diverges(t, t[1])
  {
    var t := [Str("$null"), Uid(1)];
    var loop := iset{Uid(1)};
    hide Convert, Diverges;
    assert Reaches(t, Uid(1), 0) && Sub(t, Uid(1), 0) == Some(Uid(1));
    assert Passes(t, Uid(1), Uid(1));
    assert GoesOn(t, loop, Uid(1));
    EndlessDiverges(t, loop, Uid(1));
  }

  /** So does an array that holds UID 1 behind other elements: [0, UID 1]. */
  function LaterUidTable(): (t: seq<Value>)
    ensures |t| == 5
  {
    [Str("$null"), ArrayInfo([Uid(2), Uid(3)], 4), Int(0), Uid(1), ClassEntry("NSArray")]
  }

  lemma LaterUidTableOf()
    ensures TableOf(Slice([Int(0), Uid(1)]), LaterUidTable())
  {
    LaterUidValue();
    LaterUidEntries();
    LaterUidReads();
    LaterUidSize();
    assert [Str("$null")] <= LaterUidTable();
    hide Represents, Crashes, Archivable, UidFree, Entries, SliceSize, LaterUidTable;
  }

  lemma LaterUidValue()
    ensures var v := Slice([Int(0), Uid(1)]); !Crashes(v) && Archivable(v) && !UidFree(v)
  {
    assert Slice([Int(0), Uid(1)]).items[1] == Uid(1);
  }

  lemma LaterUidEntries()
    ensures Entries(LaterUidTable())
  {
    InfoEntry([], [Uid(2), Uid(3)], 4);
    assert Entry(Int(0)) && Entry(Uid(1));
    hide Entry, ClassEntry, ArrayInfo;
    ArrayClassEntry();
  }

  lemma ArrayClassEntry()
    ensures Entry(ClassEntry("NSArray"))
  {}

  lemma LaterUidSize()
    ensures SliceSize([Int(0), Uid(1)]) == 2
  {
    assert [Int(0), Uid(1)][..1] == [Int(0)] && [Int(0)][..0] == [];
  }

  lemma LaterUidReads()
    ensures Represents(LaterUidTable(), 1, Slice([Int(0), Uid(1)]))
  {
    var t := LaterUidTable();
    hide ClassEntry;
    assert t[1].entries.Keys == {"NS.objects", "$class"};
    assert ArrayAt(t, 1) && Objects(t, 1) == [Uid(2), Uid(3)];
    assert RepresentsItems(t, 1, Objects(t, 1), [Int(0), Uid(1)]);
  }

  lemma LaterUidLoops()
    ensures Diverges(LaterUidTable(), LaterUidTable()[1])
  {
    LaterUidPasses();
    hide Convert, Diverges, Passes, LaterUidTable;
    var t := LaterUidTable();
    var loop := iset{t[1], Uid(3), Uid(1)};
    assert GoesOn(t, loop, t[1]) && GoesOn(t, loop, Uid(3)) && GoesOn(t, loop, Uid(1));
    EndlessDiverges(t, loop, t[1]);
  }

  lemma LaterUidPasses()
    ensures var t := LaterUidTable();
            Passes(t, t[1], Uid(3)) && Passes(t, Uid(3), Uid(1)) && Passes(t, Uid(1), t[1])
  {
    var t := LaterUidTable();
    assert ClassName(t, t[1].entries) == Some("NSArray");
    assert Convert(t, Uid(2), 2).Ok?;
    hide Convert, ClassName;
    assert Count(t, t[1]) == 2 && Sub(t, t[1], 0) == Some(Uid(2)) && Sub(t, t[1], 1) == Some(Uid(3));
    assert Reaches(t, t[1], 1) && Reaches(t, Uid(3), 0) && Reaches(t, Uid(1), 0);
  }

  lemma PlainArchivable(v: Value)
    requires Plain(v)
    ensures Archivable(v)
  {}
}
