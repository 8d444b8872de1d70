/**
 The decoder of pkg/libimobiledevice/keyedarchiver.go: it rebuilds a value by chasing UIDs through
 an object table. A table from the network may hold anything, so the decoder may panic on a failed
 type assertion or index, and a cycle of UIDs exhausts the goroutine's stack: `stack` bounds the
 number of nested calls.
 */
module Unarchiver {
  import opened Bytes
  import opened GoValues

  datatype Option<+T> = None | Some(value: T)

  // Classes[0] of NSMutableDictionaryClass, NSDictionaryClass, NSMutableArrayClass, NSArrayClass.
  predicate DictionaryClass(name: string) { name == "NSMutableDictionary" || name == "NSDictionary" }
  predicate ArrayClass(name: string) { name == "NSMutableArray" || name == "NSArray" }

  predicate InTable(t: seq<Value>, v: Value) { v.Uid? && v.id < |t| }

  predicate SliceAt(m: map<string, Value>, key: string) { key in m && m[key].Slice? }

  /** The class name an object map points to; None when one of the assertions on the way fails. */
  function ClassName(t: seq<Value>, m: map<string, Value>): Option<string> {
    if "$class" in m && InTable(t, m["$class"]) && t[m["$class"].id].Map? then
      var c := t[m["$class"].id].entries;
      Some(if "$classname" in c && c["$classname"].Str? then c["$classname"].s else "")
    else
      None
  }

  function Digits(n: nat): string {
    if n < 10 then ["0123456789"[n]] else Digits(n / 10) + ["0123456789"[n % 10]]
  }

  /** strconv.Itoa(int(key)) for an unsigned 64-bit key. */
  function Itoa(n: u64): string {
    var i: int := ToI64(n);
    if i < 0 then "-" + Digits(-i) else Digits(i)
  }

  /** The dictionary key a keys entry stands for: strings as they are, unsigned integers in decimal. */
  function KeyString(t: seq<Value>, k: Value): Option<string> {
    if !InTable(t, k) then None
    else match t[k.id]
      case Str(s) => Some(s)
      case Int(n) => if n >= 0 then Some(Itoa(n)) else None
      case _ => None
  }

  /** Conversion of a float to an integer, towards zero. */
  function Truncate(units: int): int {
    if units >= 0 then units / FLOAT_ONE else -(-units / FLOAT_ONE)
  }

  function Convert(t: seq<Value>, v: Value, stack: nat): Outcome
    decreases stack, 0
  {
    if stack == 0 then StackOverflow
    else match v
      case Map(m) =>
        var cls := ClassName(t, m);
        if cls.None? then Panic
        else if DictionaryClass(cls.value) then
          if SliceAt(m, "NS.keys") && SliceAt(m, "NS.objects") then
            var keys := m["NS.keys"].items;
            ConvertEntries(t, keys, m["NS.objects"].items, |keys|, stack - 1)
          else Panic
        else if ArrayClass(cls.value) then
          if SliceAt(m, "NS.objects") then
            var values := m["NS.objects"].items;
            ConvertItems(t, values, |values|, stack - 1)
          else Panic
        else if cls.value == "NSData" then
          if "NS.data" in m && m["NS.data"].Data? then Ok(m["NS.data"]) else Panic
        else if cls.value == "NSDate" then
          if "NS.time" in m && m["NS.time"].Float? then Ok(Date(Truncate(m["NS.time"].units))) else Panic
        else if cls.value == "NSError" then
          ConvertError(t, m, stack - 1)
        else Ok(v)
      case Uid(id) => if id < |t| then Convert(t, t[id], stack - 1) else Panic
      case _ => Ok(v)
  }

  /** The map built from the first n keys and values; a repeated key keeps its last value. */
  function ConvertEntries(t: seq<Value>, keys: seq<Value>, values: seq<Value>, n: nat, stack: nat): (r: Outcome)
    requires n <= |keys|
    ensures r.Ok? ==> r.value.Map?
    decreases stack, n
  {
    if n == 0 then Ok(Map(map[]))
    else
      var sofar := ConvertEntries(t, keys, values, n - 1, stack);
      if !sofar.Ok? then sofar
      else
        var key := KeyString(t, keys[n-1]);
        if key.None? || n > |values| || !InTable(t, values[n-1]) then Panic
        else
          var val := Convert(t, t[values[n-1].id], stack);
          if val.Ok? then Ok(Map(sofar.value.entries[key.value := val.value])) else val
  }

  /** The slice built from the first n values. */
  function ConvertItems(t: seq<Value>, values: seq<Value>, n: nat, stack: nat): (r: Outcome)
    requires n <= |values|
    ensures r.Ok? ==> r.value.Slice? && |r.value.items| == n
    decreases stack, n
  {
    if n == 0 then Ok(Slice([]))
    else
      var sofar := ConvertItems(t, values, n - 1, stack);
      if !sofar.Ok? then sofar
      else
        var val := Convert(t, values[n-1], stack);
        if val.Ok? then Ok(Slice(sofar.value.items + [val.value])) else val
  }

  function ConvertError(t: seq<Value>, m: map<string, Value>, stack: nat): Outcome
    decreases stack, 1
  {
    if !("NSCode" in m && m["NSCode"].Int? && m["NSCode"].n >= 0) then Panic
    else if !("NSDomain" in m && InTable(t, m["NSDomain"]) && t[m["NSDomain"].id].Str?) then Panic
    else if !("NSUserInfo" in m && InTable(t, m["NSUserInfo"])) then Panic
    else
      var info := Convert(t, t[m["NSUserInfo"].id], stack);
      if info.Ok? then Ok(NSError(ToI64(m["NSCode"].n), t[m["NSDomain"].id].s, info.value)) else info
  }

  /** convertValue itself; its two loops stand in the two methods below. */
  method ConvertValue(t: seq<Value>, v: Value, stack: nat) returns (r: Outcome)
    ensures r == Convert(t, v, stack)
    decreases stack, 0
  {
    if stack == 0 { return StackOverflow; }
    match v {
      case Map(m) =>
        var cls := ClassName(t, m);
        if cls.None? { return Panic; }
        if DictionaryClass(cls.value) {
          if !SliceAt(m, "NS.keys") || !SliceAt(m, "NS.objects") { return Panic; }
          r := ConvertDictionary(t, m["NS.keys"].items, m["NS.objects"].items, stack - 1);
        } else if ArrayClass(cls.value) {
          if !SliceAt(m, "NS.objects") { return Panic; }
          r := ConvertArray(t, m["NS.objects"].items, stack - 1);
        } else {
          r := ConvertOther(t, m, cls.value, stack - 1);
        }
      case Uid(id) =>
        if id >= |t| { return Panic; }
        r := ConvertValue(t, t[id], stack - 1);
      case _ =>
        return Ok(v);
    }
  }

  method ConvertDictionary(t: seq<Value>, keys: seq<Value>, values: seq<Value>, stack: nat) returns (r: Outcome)
    ensures r == ConvertEntries(t, keys, values, |keys|, stack)
    decreases stack, 1
  {
    var ret: map<string, Value> := map[];
    var i := 0;
    while i < |keys|
      invariant i <= |keys|
      invariant ConvertEntries(t, keys, values, i, stack) == Ok(Map(ret))
    {
      var key := KeyString(t, keys[i]);
      if key.None? || i >= |values| || !InTable(t, values[i]) {
        EntriesStop(t, keys, values, i + 1, |keys|, stack);
        return Panic;
      }
      var val := ConvertValue(t, t[values[i].id], stack);
      if !val.Ok? {
        EntriesStop(t, keys, values, i + 1, |keys|, stack);
        return val;
      }
      ret := ret[key.value := val.value];
      i := i + 1;
    }
    return Ok(Map(ret));
  }

  method ConvertArray(t: seq<Value>, values: seq<Value>, stack: nat) returns (r: Outcome)
    ensures r == ConvertItems(t, values, |values|, stack)
    decreases stack, 1
  {
    var ret: seq<Value> := [];
    var i := 0;
    while i < |values|
      invariant i <= |values|
      invariant ConvertItems(t, values, i, stack) == Ok(Slice(ret))
    {
      var val := ConvertValue(t, values[i], stack);
      if !val.Ok? {
        ItemsStop(t, values, i + 1, |values|, stack);
        return val;
      }
      ret := ret + [val.value];
      i := i + 1;
    }
    return Ok(Slice(ret));
  }

  /** The classes that are rebuilt without a loop, and the maps of an unknown class, which stay as they are. */
  method ConvertOther(t: seq<Value>, m: map<string, Value>, name: string, stack: nat) returns (r: Outcome)
    requires ClassName(t, m) == Some(name) && !DictionaryClass(name) && !ArrayClass(name)
    ensures r == Convert(t, Map(m), stack + 1)
    decreases stack, 1
  {
    if name == "NSData" {
      return if "NS.data" in m && m["NS.data"].Data? then Ok(m["NS.data"]) else Panic;
    } else if name == "NSDate" {
      return if "NS.time" in m && m["NS.time"].Float? then Ok(Date(Truncate(m["NS.time"].units))) else Panic;
    } else if name == "NSError" {
      if !("NSCode" in m && m["NSCode"].Int? && m["NSCode"].n >= 0) { return Panic; }
      if !("NSDomain" in m && InTable(t, m["NSDomain"]) && t[m["NSDomain"].id].Str?) { return Panic; }
      if !("NSUserInfo" in m && InTable(t, m["NSUserInfo"])) { return Panic; }
      var info := ConvertValue(t, t[m["NSUserInfo"].id], stack);
      return if info.Ok? then Ok(NSError(ToI64(m["NSCode"].n), t[m["NSDomain"].id].s, info.value)) else info;
    } else {
      return Ok(Map(m));
    }
  }

  /** A conversion that has failed at one entry has failed at every later one. */
  lemma {:induction false} EntriesStop(t: seq<Value>, keys: seq<Value>, values: seq<Value>, i: nat, n: nat, stack: nat)
    requires i <= n <= |keys|
    requires !ConvertEntries(t, keys, values, i, stack).Ok?
    ensures ConvertEntries(t, keys, values, n, stack) == ConvertEntries(t, keys, values, i, stack)
    decreases n
  {
    if i < n { EntriesStop(t, keys, values, i, n - 1, stack); }
  }

  lemma {:induction false} ItemsStop(t: seq<Value>, values: seq<Value>, i: nat, n: nat, stack: nat)
    requires i <= n <= |values|
    requires !ConvertItems(t, values, i, stack).Ok?
    ensures ConvertItems(t, values, n, stack) == ConvertItems(t, values, i, stack)
    decreases n
  {
    if i < n { ItemsStop(t, values, i, n - 1, stack); }
  }

  /**
   Extension stability: appending objects to a table, and having more stack, changes no result that
   was already delivered.
   */
  lemma {:induction false} ConvertStable(t: seq<Value>, more: seq<Value>, v: Value, stack: nat, stack': nat)
    requires stack <= stack' && Convert(t, v, stack).Ok?
    ensures Convert(t + more, v, stack') == Convert(t, v, stack)
    decreases stack, 0
  {
    hide DictionaryClass, ArrayClass, ConvertEntries, ConvertItems, Truncate;
    var t' := t + more;
    match v {
      case Map(m) =>
        var cls := ClassName(t, m);
        assert ClassName(t', m) == cls;
        if DictionaryClass(cls.value) {
          var keys := m["NS.keys"].items;
          EntriesStable(t, more, keys, m["NS.objects"].items, |keys|, stack - 1, stack' - 1);
        } else if ArrayClass(cls.value) {
          var values := m["NS.objects"].items;
          ItemsStable(t, more, values, |values|, stack - 1, stack' - 1);
        } else if cls.value == "NSError" {
          ConvertStable(t, more, t[m["NSUserInfo"].id], stack - 1, stack' - 1);
        }
      case Uid(id) => ConvertStable(t, more, t[id], stack - 1, stack' - 1);
      case _ =>
    }
  }

  lemma {:induction false} EntriesStable(
      t: seq<Value>, more: seq<Value>, keys: seq<Value>, values: seq<Value>, n: nat, stack: nat, stack': nat)
    requires n <= |keys| && stack <= stack' && ConvertEntries(t, keys, values, n, stack).Ok?
    ensures ConvertEntries(t + more, keys, values, n, stack') == ConvertEntries(t, keys, values, n, stack)
    decreases stack, n
  {
    if n > 0 {
      EntriesStable(t, more, keys, values, n - 1, stack, stack');
      ConvertStable(t, more, t[values[n-1].id], stack, stack');
    }
  }

  lemma {:induction false} ItemsStable(
      t: seq<Value>, more: seq<Value>, values: seq<Value>, n: nat, stack: nat, stack': nat)
    requires n <= |values| && stack <= stack' && ConvertItems(t, values, n, stack).Ok?
    ensures ConvertItems(t + more, values, n, stack') == ConvertItems(t, values, n, stack)
    decreases stack, n
  {
    if n > 0 {
      ItemsStable(t, more, values, n - 1, stack, stack');
      ConvertStable(t, more, values[n-1], stack, stack');
    }
  }

  /** Every UID is chased: none is ever delivered as the result itself. */
  lemma {:induction false} ConvertNeverUid(t: seq<Value>, v: Value, stack: nat)
    ensures Convert(t, v, stack).Ok? ==> !Convert(t, v, stack).value.Uid?
    decreases stack
  {
    if stack > 0 && v.Uid? && v.id < |t| { ConvertNeverUid(t, t[v.id], stack - 1); }
  }
}
