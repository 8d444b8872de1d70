/**
 What the decoder of pkg/libimobiledevice/keyedarchiver.go delivers from any table, whoever wrote it: for each class
 name, which values come out, said of the table itself. The encoders of this repository write two of these classes
 only; a device writes all of them.
 */
module Delivery {
  import opened Bytes
  import opened GoValues
  import opened Unarchiver
  import opened Divergence
  import opened KeyedArchive

  /** With stack enough, v is decoded as w. */
  ghost predicate Delivers(t: seq<Value>, v: Value, w: Value) {
    exists stack: nat :: Convert(t, v, stack) == Ok(w)
  }

  /** What the reference stands for is decoded as w. */
  ghost predicate RefDelivers(t: seq<Value>, ref: Value, w: Value) {
    ref.Uid? && ref.id < |t| && Delivers(t, t[ref.id], w)
  }

  /** m has a class record, and it has this class name. */
  predicate OfClass(t: seq<Value>, m: map<string, Value>, name: string) {
    HasClass(t, m) && var c := t[m["$class"].id].entries;
    "$classname" in c && c["$classname"] == Str(name)
  }

  predicate HasClass(t: seq<Value>, m: map<string, Value>) {
    "$class" in m && m["$class"].Uid? && m["$class"].id < |t| && t[m["$class"].id].Map?
  }

  // ---------------------------------------------------------------------------------------------
  // Numbers as keys
  // ---------------------------------------------------------------------------------------------

  /** What a string of digits is worth. */
  function Worth(s: string): int {
    if s == "" then 0 else 10 * Worth(s[..|s|-1]) + (s[|s|-1] as int - '0' as int)
  }

  predicate AllDigits(s: string) { forall i :: 0 <= i < |s| ==> '0' <= s[i] <= '9' }

  /** The decimal numeral of n: digits without a leading zero. */
  predicate Numeral(s: string, n: int) {
    s != "" && AllDigits(s) && (|s| > 1 ==> s[0] != '0') && Worth(s) == n
  }

  predicate Decimal(s: string, i: int) {
    if i >= 0 then Numeral(s, i) else s != "" && s[0] == '-' && Numeral(s[1..], -i)
  }

  /** Go's conversion of an unsigned 64-bit integer to a signed one. */
  predicate Wraps(n: int, i: int) {
    -0x8000_0000_0000_0000 <= i < 0x8000_0000_0000_0000 && (i == n || i == n - 0x1_0000_0000_0000_0000)
  }

  lemma DigitChar(d: nat)
    requires d < 10
    ensures "0123456789"[d] as int == '0' as int + d && '0' <= "0123456789"[d] <= '9'
  {
    var s := "0123456789";
    assert s[0] == '0' && s[1] == '1' && s[2] == '2' && s[3] == '3' && s[4] == '4';
    assert s[5] == '5' && s[6] == '6' && s[7] == '7' && s[8] == '8' && s[9] == '9';
  }

  lemma {:induction false} WorthPositive(s: string)
    requires AllDigits(s)
    ensures Worth(s) >= 0 && (s != "" && s[0] != '0' ==> Worth(s) > 0)
    decreases |s|
  {
    if s != "" { WorthPositive(s[..|s|-1]); }
  }

  lemma {:induction false} DigitsNumeral(n: nat)
    ensures Numeral(Digits(n), n) && (n > 0 ==> Digits(n)[0] != '0')
    decreases n
  {
    var s := Digits(n);
    DigitChar(n % 10);
    if n < 10 {
      assert s[..0] == "";
    } else {
      DigitsNumeral(n / 10);
      assert s[..|s|-1] == Digits(n / 10);
    }
  }

  lemma DigitsEnd(m: nat, d: nat, last: char)
    requires d < 10 && last as int == '0' as int + d
    ensures Digits(10 * m + d) == if m == 0 then [last] else Digits(m) + [last]
  {
    DigitChar(d);
    assert (10 * m + d) / 10 == m && (10 * m + d) % 10 == d;
  }

  lemma {:induction false} NumeralDigits(s: string, n: nat)
    requires Numeral(s, n)
    ensures s == Digits(n)
    decreases |s|
  {
    hide Digits;
    var front, last := s[..|s|-1], s[|s|-1];
    WorthPositive(front);
    DigitsEnd(Worth(front), last as int - '0' as int, last);
    if front != "" { NumeralDigits(front, Worth(front)); }
    assert s == front + [last];
  }

  lemma ItoaDecimal(n: int, s: string)
    requires 0 <= n < 0x1_0000_0000_0000_0000
    ensures s == Itoa(n) <==> exists i :: Wraps(n, i) && Decimal(s, i)
  {
    hide Digits, Numeral;
    var i := if n < 0x8000_0000_0000_0000 then n else n - 0x1_0000_0000_0000_0000;
    assert Wraps(n, i) && forall j :: Wraps(n, j) ==> j == i;
    if i >= 0 {
      NumeralIff(s, i);
    } else {
      if s != "" { NumeralIff(s[1..], -i); }
      assert s == "-" + Digits(-i) <==> s != "" && s[0] == '-' && s[1..] == Digits(-i);
    }
  }

  lemma NumeralIff(s: string, n: nat)
    ensures Numeral(s, n) <==> s == Digits(n)
  {
    DigitsNumeral(n);
    if Numeral(s, n) { NumeralDigits(s, n); }
  }

  /** The key is a reference to this string, or to an unsigned integer whose decimal form, as an int, it is. */
  ghost predicate KeyReads(t: seq<Value>, key: Value, name: string) {
    key.Uid? && key.id < |t| && var k := t[key.id];
    k == Str(name) || (k.Int? && k.n >= 0 && exists i :: Wraps(k.n, i) && Decimal(name, i))
  }

  lemma KeyStringReads(t: seq<Value>, key: Value, name: string)
    ensures KeyString(t, key) == Some(name) <==> KeyReads(t, key, name)
  {
    hide Decimal, Wraps, Itoa;
    if InTable(t, key) && t[key.id].Int? && t[key.id].n >= 0 { ItoaDecimal(t[key.id].n, name); }
  }

  // ---------------------------------------------------------------------------------------------
  // Dictionaries
  // ---------------------------------------------------------------------------------------------

  /** The map of these pairs, where a repeated name keeps its last part. */
  ghost predicate LastWins(names: seq<string>, parts: seq<Value>, m: map<string, Value>)
  {
    |names| == |parts| && (forall k :: k in m <==> k in names)
    && (forall i :: 0 <= i < |names| && names[i] !in names[i+1..] ==> m[names[i]] == parts[i])
  }

  /** The first n pairs of a dictionary are read as these names and parts. */
  ghost predicate PairsRead(t: seq<Value>, keys: seq<Value>, refs: seq<Value>, n: nat,
                            names: seq<string>, parts: seq<Value>)
  {
    n == |names| == |parts| && n <= |keys| && n <= |refs|
    && forall i :: 0 <= i < n ==> KeyReads(t, keys[i], names[i]) && RefDelivers(t, refs[i], parts[i])
  }

  /** Every key has a value behind it, and w is the map of what they stand for. */
  ghost predicate DictionaryReads(t: seq<Value>, m: map<string, Value>, w: Value) {
    "NS.keys" in m && m["NS.keys"].Slice? && "NS.objects" in m && m["NS.objects"].Slice? && w.Map?
    && EntriesRead(t, m["NS.keys"].items, m["NS.objects"].items, |m["NS.keys"].items|, w.entries)
  }

  ghost predicate EntriesRead(t: seq<Value>, keys: seq<Value>, refs: seq<Value>, n: nat, m: map<string, Value>) {
    exists names, parts :: PairsRead(t, keys, refs, n, names, parts) && LastWins(names, parts, m)
  }

  lemma LastWinsMore(names: seq<string>, parts: seq<Value>, m: map<string, Value>, name: string, part: Value)
    requires LastWins(names, parts, m)
    ensures LastWins(names + [name], parts + [part], m[name := part])
  {
    var names', n := names + [name], |names|;
    forall i | 0 <= i < |names'| && names'[i] !in names'[i+1..]
      ensures m[name := part][names'[i]] == (parts + [part])[i]
    {
      if i < n {
        assert names'[i+1..] == names[i+1..] + [name];
      }
    }
  }

  /** Some occurrence of a name is the last. */
  lemma {:induction false} LastOf(names: seq<string>, k: string) returns (i: nat)
    requires k in names
    ensures i < |names| && names[i] == k && k !in names[i+1..]
    decreases |names|
  {
    if k in names[1..] {
      i := LastOf(names[1..], k);
      assert names[i+2..] == names[1..][i+1..];
      i := i + 1;
    } else {
      i := 0;
    }
  }

  lemma LastWinsUnique(names: seq<string>, parts: seq<Value>, m: map<string, Value>, m': map<string, Value>)
    requires LastWins(names, parts, m) && LastWins(names, parts, m')
    ensures m == m'
  {
    forall k | k in m ensures m[k] == m'[k] {
      var i := LastOf(names, k);
    }
    assert m.Keys == m'.Keys;
  }

  lemma {:induction false} EntriesDelivered(t: seq<Value>, keys: seq<Value>, refs: seq<Value>, n: nat, stack: nat)
    requires n <= |keys| && ConvertEntries(t, keys, refs, n, stack).Ok?
    ensures EntriesRead(t, keys, refs, n, ConvertEntries(t, keys, refs, n, stack).value.entries)
    decreases n
  {
    hide Convert, KeyString, KeyReads, LastWins;
    var m := ConvertEntries(t, keys, refs, n, stack).value.entries;
    if n == 0 {
      NoPairs(t, keys, refs);
    } else {
      EntriesDelivered(t, keys, refs, n - 1, stack);
      var before := ConvertEntries(t, keys, refs, n - 1, stack).value.entries;
      var names, parts :| PairsRead(t, keys, refs, n - 1, names, parts) && LastWins(names, parts, before);
      var name := KeyString(t, keys[n-1]).value;
      var part := Convert(t, t[refs[n-1].id], stack).value;
      KeyStringReads(t, keys[n-1], name);
      LastWinsMore(names, parts, before, name, part);
      assert PairsRead(t, keys, refs, n, names + [name], parts + [part]);
    }
  }

  lemma NoPairs(t: seq<Value>, keys: seq<Value>, refs: seq<Value>)
    ensures PairsRead(t, keys, refs, 0, [], []) && LastWins([], [], map[])
  {}

  lemma {:induction false} EntriesDeliver(t: seq<Value>, keys: seq<Value>, refs: seq<Value>, n: nat,
                                          names: seq<string>, parts: seq<Value>) returns (stack: nat)
    requires PairsRead(t, keys, refs, n, names, parts)
    ensures ConvertEntries(t, keys, refs, n, stack).Ok?
    ensures LastWins(names, parts, ConvertEntries(t, keys, refs, n, stack).value.entries)
    decreases n
  {
    hide Convert, KeyString, KeyReads, LastWins;
    if n == 0 {
      stack := 0;
      NoPairs(t, keys, refs);
    } else {
      var early := EntriesDeliver(t, keys, refs, n - 1, names[..n-1], parts[..n-1]);
      var late: nat :| Convert(t, t[refs[n-1].id], late) == Ok(parts[n-1]);
      stack := if early > late then early else late;
      EntriesSettled(t, keys, refs, n - 1, early, stack);
      Settled(t, t[refs[n-1].id], late, stack);
      KeyStringReads(t, keys[n-1], names[n-1]);
      LastWinsMore(names[..n-1], parts[..n-1], ConvertEntries(t, keys, refs, n - 1, stack).value.entries,
                   names[n-1], parts[n-1]);
      assert names[..n-1] + [names[n-1]] == names && parts[..n-1] + [parts[n-1]] == parts;
    }
  }

  /** A dictionary, of either class, is decoded as the map of what its keys and values stand for. */
  lemma DictionaryDelivers(t: seq<Value>, m: map<string, Value>, w: Value)
    requires OfClass(t, m, "NSDictionary") || OfClass(t, m, "NSMutableDictionary")
    ensures Delivers(t, Map(m), w) <==> DictionaryReads(t, m, w)
  {
    hide ConvertEntries, ConvertItems, EntriesRead;
    if stack: nat :| Convert(t, Map(m), stack) == Ok(w) {
      var keys, refs := m["NS.keys"].items, m["NS.objects"].items;
      assert ConvertEntries(t, keys, refs, |keys|, stack - 1) == Ok(w);
      EntriesDelivered(t, keys, refs, |keys|, stack - 1);
    }
    if DictionaryReads(t, m, w) {
      var keys, refs := m["NS.keys"].items, m["NS.objects"].items;
      var stack := EntriesReadDeliver(t, keys, refs, w.entries);
      assert Convert(t, Map(m), stack + 1) == Ok(w);
    }
  }

  lemma EntriesReadDeliver(t: seq<Value>, keys: seq<Value>, refs: seq<Value>, m: map<string, Value>)
      returns (stack: nat)
    requires EntriesRead(t, keys, refs, |keys|, m)
    ensures ConvertEntries(t, keys, refs, |keys|, stack) == Ok(Map(m))
  {
    hide ConvertEntries, PairsRead, LastWins;
    var names, parts :| PairsRead(t, keys, refs, |keys|, names, parts) && LastWins(names, parts, m);
    stack := EntriesDeliver(t, keys, refs, |keys|, names, parts);
    LastWinsUnique(names, parts, m, ConvertEntries(t, keys, refs, |keys|, stack).value.entries);
  }

  // ---------------------------------------------------------------------------------------------
  // Arrays
  // ---------------------------------------------------------------------------------------------

  ghost predicate ItemsRead(t: seq<Value>, values: seq<Value>, n: nat, items: seq<Value>) {
    n == |items| && n <= |values| && forall i :: 0 <= i < n ==> Delivers(t, values[i], items[i])
  }

  ghost predicate ArrayReads(t: seq<Value>, m: map<string, Value>, w: Value) {
    "NS.objects" in m && m["NS.objects"].Slice? && w.Slice?
    && ItemsRead(t, m["NS.objects"].items, |m["NS.objects"].items|, w.items)
  }

  lemma {:induction false} ItemsDelivered(t: seq<Value>, values: seq<Value>, n: nat, stack: nat)
    requires n <= |values| && ConvertItems(t, values, n, stack).Ok?
    ensures ItemsRead(t, values, n, ConvertItems(t, values, n, stack).value.items)
    decreases n
  {
    hide Convert;
    if n > 0 { ItemsDelivered(t, values, n - 1, stack); }
  }

  lemma {:induction false} ItemsDeliver(t: seq<Value>, values: seq<Value>, n: nat, items: seq<Value>)
      returns (stack: nat)
    requires ItemsRead(t, values, n, items)
    ensures ConvertItems(t, values, n, stack) == Ok(Slice(items))
    decreases n
  {
    hide Convert;
    if n == 0 {
      stack := 0;
    } else {
      var early := ItemsDeliver(t, values, n - 1, items[..n-1]);
      var late: nat :| Convert(t, values[n-1], late) == Ok(items[n-1]);
      stack := if early > late then early else late;
      ItemsSettled(t, values, n - 1, early, stack);
      Settled(t, values[n-1], late, stack);
      assert items[..n-1] + [items[n-1]] == items;
    }
  }

  /** An array, of either class, is decoded item by item. */
  lemma ArrayDelivers(t: seq<Value>, m: map<string, Value>, w: Value)
    requires OfClass(t, m, "NSArray") || OfClass(t, m, "NSMutableArray")
    ensures Delivers(t, Map(m), w) <==> ArrayReads(t, m, w)
  {
    hide ConvertEntries, ConvertItems, ItemsRead;
    if stack: nat :| Convert(t, Map(m), stack) == Ok(w) {
      var values := m["NS.objects"].items;
      assert ConvertItems(t, values, |values|, stack - 1) == Ok(w);
      ItemsDelivered(t, values, |values|, stack - 1);
    }
    if ArrayReads(t, m, w) {
      var values := m["NS.objects"].items;
      var stack := ItemsDeliver(t, values, |values|, w.items);
      assert Convert(t, Map(m), stack + 1) == Ok(w);
    }
  }

  // ---------------------------------------------------------------------------------------------
  // The other classes
  // ---------------------------------------------------------------------------------------------

  lemma DataDelivers(t: seq<Value>, m: map<string, Value>, w: Value)
    requires OfClass(t, m, "NSData")
    ensures Delivers(t, Map(m), w) <==> w.Data? && "NS.data" in m && m["NS.data"] == w
  {
    hide ConvertEntries, ConvertItems;
    if w.Data? && "NS.data" in m && m["NS.data"] == w { assert Convert(t, Map(m), 1) == Ok(w); }
  }

  /** The whole seconds of a time, the fraction dropped: units of 2^-1074 seconds, FLOAT_ONE to a second. */
  predicate WholeSeconds(units: int, seconds: int) {
    if units >= 0 then seconds * FLOAT_ONE <= units < (seconds + 1) * FLOAT_ONE
    else (seconds - 1) * FLOAT_ONE < units <= seconds * FLOAT_ONE
  }

  lemma Quotient(n: nat, d: nat, q: int)
    requires d > 0
    ensures q == n / d <==> q * d <= n < (q + 1) * d
  {
    var a := n / d;
    assert a * d <= n < a * d + d;
    if q > a { Multiples(a + 1, q, d); } else if q < a { Multiples(q + 1, a, d); }
  }

  lemma Multiples(a: int, b: int, d: nat)
    requires a <= b
    ensures a * d <= b * d
  {}

  lemma SecondsTruncated(units: int, seconds: int)
    ensures seconds == Truncate(units) <==> WholeSeconds(units, seconds)
  {
    if units >= 0 { Quotient(units, FLOAT_ONE, seconds); } else { Quotient(-units, FLOAT_ONE, -seconds); }
  }

  lemma DateDelivers(t: seq<Value>, m: map<string, Value>, w: Value)
    requires OfClass(t, m, "NSDate")
    ensures Delivers(t, Map(m), w)
       <==> w.Date? && "NS.time" in m && m["NS.time"].Float? && WholeSeconds(m["NS.time"].units, w.seconds)
  {
    hide ConvertEntries, ConvertItems, Truncate, WholeSeconds;
    if w.Date? && "NS.time" in m && m["NS.time"].Float? { SecondsTruncated(m["NS.time"].units, w.seconds); }
    assert Convert(t, Map(m), 1).Ok? ==> Delivers(t, Map(m), Convert(t, Map(m), 1).value);
  }

  ghost predicate ErrorReads(t: seq<Value>, m: map<string, Value>, w: Value) {
    w.NSError?
    && "NSCode" in m && m["NSCode"].Int? && m["NSCode"].n >= 0 && Wraps(m["NSCode"].n, w.code)
    && "NSDomain" in m && m["NSDomain"].Uid? && m["NSDomain"].id < |t| && t[m["NSDomain"].id] == Str(w.domain)
    && "NSUserInfo" in m && RefDelivers(t, m["NSUserInfo"], w.userInfo)
  }

  lemma ErrorDelivers(t: seq<Value>, m: map<string, Value>, w: Value)
    requires OfClass(t, m, "NSError")
    ensures Delivers(t, Map(m), w) <==> ErrorReads(t, m, w)
  {
    if stack: nat :| Convert(t, Map(m), stack) == Ok(w) {
      assert ConvertError(t, m, stack - 1) == Ok(w);
      hide Convert;
      assert Convert(t, t[m["NSUserInfo"].id], stack - 1) == Ok(w.userInfo);
    }
    if ErrorReads(t, m, w) {
      var stack: nat :| Convert(t, t[m["NSUserInfo"].id], stack) == Ok(w.userInfo);
      assert ConvertError(t, m, stack) == Ok(w);
      assert Convert(t, Map(m), stack + 1) == Ok(w);
    }
  }

  /** A map of any other class, or whose class record has no name, stays as it is; one without a record fails. */
  lemma OtherDelivers(t: seq<Value>, m: map<string, Value>, w: Value)
    requires forall name :: OfClass(t, m, name) ==>
               name !in {"NSDictionary", "NSMutableDictionary", "NSArray", "NSMutableArray",
                         "NSData", "NSDate", "NSError"}
    ensures Delivers(t, Map(m), w) <==> HasClass(t, m) && w == Map(m)
  {
    hide ConvertEntries, ConvertItems;
    if HasClass(t, m) {
      var c := t[m["$class"].id].entries;
      if "$classname" in c && c["$classname"].Str? { assert OfClass(t, m, c["$classname"].s); }
      assert Convert(t, Map(m), 1) == Ok(Map(m));
    }
  }

  /** A UID is decoded as what it leads to, and everything that is neither a UID nor a map as itself. */
  lemma ScalarDelivers(t: seq<Value>, v: Value, w: Value)
    requires !v.Map?
    ensures Delivers(t, v, w) <==> if v.Uid? then RefDelivers(t, v, w) else w == v
  {
    if !v.Uid? {
      assert Convert(t, v, 1) == Ok(v);
    } else {
      if stack: nat :| Convert(t, v, stack) == Ok(w) { assert Convert(t, t[v.id], stack - 1) == Ok(w); }
      if RefDelivers(t, v, w) {
        var stack: nat :| Convert(t, t[v.id], stack) == Ok(w);
        assert Convert(t, v, stack + 1) == Ok(w);
      }
    }
  }

  // ---------------------------------------------------------------------------------------------
  // Everything that does not end in a value
  // ---------------------------------------------------------------------------------------------

  lemma {:induction false} NeverListError(t: seq<Value>, v: Value, stack: nat)
    ensures Convert(t, v, stack) != PlistError
    decreases stack, 0
  {
    hide ClassName, KeyString, Truncate, ConvertEntries, ConvertItems;
    if stack > 0 {
      match v {
        case Map(m) =>
          if IsDictionary(t, m) {
            EntriesNoListError(t, m["NS.keys"].items, m["NS.objects"].items, |m["NS.keys"].items|, stack - 1);
          } else if IsArray(t, m) {
            ItemsNoListError(t, m["NS.objects"].items, |m["NS.objects"].items|, stack - 1);
          } else if IsError(t, m) {
            NeverListError(t, t[m["NSUserInfo"].id], stack - 1);
          }
        case Uid(id) => if id < |t| { NeverListError(t, t[id], stack - 1); }
        case _ =>
      }
    }
  }

  lemma {:induction false} EntriesNoListError(t: seq<Value>, keys: seq<Value>, values: seq<Value>, n: nat, stack: nat)
    requires n <= |keys|
    ensures ConvertEntries(t, keys, values, n, stack) != PlistError
    decreases stack, 1, n
  {
    hide Convert, KeyString;
    if n > 0 {
      EntriesNoListError(t, keys, values, n - 1, stack);
      if n <= |values| && InTable(t, values[n-1]) { NeverListError(t, t[values[n-1].id], stack); }
    }
  }

  lemma {:induction false} ItemsNoListError(t: seq<Value>, values: seq<Value>, n: nat, stack: nat)
    requires n <= |values|
    ensures ConvertItems(t, values, n, stack) != PlistError
    decreases stack, 1, n
  {
    hide Convert;
    if n > 0 {
      ItemsNoListError(t, values, n - 1, stack);
      NeverListError(t, values[n-1], stack);
    }
  }

  /** Decoding panics exactly where it ends and nothing is delivered; what is delivered is one value. */
  lemma PanicsIff(t: seq<Value>, v: Value)
    ensures (exists stack: nat :: Convert(t, v, stack) == Panic) <==> !Diverges(t, v) && forall w :: !Delivers(t, v, w)
    ensures forall w, w' :: Delivers(t, v, w) && Delivers(t, v, w') ==> w == w'
  {
    hide Convert;
    forall stack: nat, stack': nat | !Convert(t, v, stack).StackOverflow? && !Convert(t, v, stack').StackOverflow?
      ensures Convert(t, v, stack) == Convert(t, v, stack')
    {
      if stack <= stack' { Settled(t, v, stack, stack'); } else { Settled(t, v, stack', stack); }
    }
    if !Diverges(t, v) {
      var stack: nat :| Convert(t, v, stack) != StackOverflow;
      NeverListError(t, v, stack);
      if Convert(t, v, stack).Ok? { assert Delivers(t, v, Convert(t, v, stack).value); }
    }
  }

  /** Unmarshal: a property list that cannot be read is an error, a root outside the table a panic. */
  lemma UnarchiveIff(p: Plist, raw: seq<byte>, stack: nat)
    ensures Unarchive(p, raw, stack) == PlistError <==> p.unmarshal(raw).None?
    ensures p.unmarshal(raw).Some? ==>
              var a := p.unmarshal(raw).value;
              var r := Unarchive(p, raw, stack);
              if a.root >= |a.objects| then r == Panic
              else r.Ok? ==> Delivers(a.objects, a.objects[a.root], r.value)
  {
    hide Convert;
    if p.unmarshal(raw).Some? {
      var a := p.unmarshal(raw).value;
      if a.root < |a.objects| { NeverListError(a.objects, a.objects[a.root], stack); }
    }
  }
}
