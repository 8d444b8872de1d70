/**
 When the decoder of pkg/libimobiledevice/keyedarchiver.go does not end: convertValue has no guard against a table
 that leads back into itself.
 */
module Divergence {
  import opened GoValues
  import opened Unarchiver

  /** No stack is enough for the value. */
  ghost predicate Diverges(t: seq<Value>, v: Value) {
    forall stack: nat :: Convert(t, v, stack) == StackOverflow
  }

  /** Some stack is, and the value is converted. */
  ghost predicate Converts(t: seq<Value>, v: Value) {
    exists stack: nat :: Convert(t, v, stack).Ok?
  }

  // ---------------------------------------------------------------------------------------------
  // What one conversion asks for
  // ---------------------------------------------------------------------------------------------

  predicate ErrorReadable(t: seq<Value>, m: map<string, Value>) {
    "NSCode" in m && m["NSCode"].Int? && m["NSCode"].n >= 0
    && "NSDomain" in m && InTable(t, m["NSDomain"]) && t[m["NSDomain"].id].Str?
    && "NSUserInfo" in m && InTable(t, m["NSUserInfo"])
  }

  predicate IsDictionary(t: seq<Value>, m: map<string, Value>) {
    ClassName(t, m).Some? && DictionaryClass(ClassName(t, m).value) && SliceAt(m, "NS.keys") && SliceAt(m, "NS.objects")
  }

  predicate IsArray(t: seq<Value>, m: map<string, Value>) {
    ClassName(t, m).Some? && ArrayClass(ClassName(t, m).value) && SliceAt(m, "NS.objects")
  }

  predicate IsError(t: seq<Value>, m: map<string, Value>) {
    ClassName(t, m) == Some("NSError") && ErrorReadable(t, m)
  }

  /** How many other values are converted for v, if none of them fails. */
  function Count(t: seq<Value>, v: Value): nat {
    match v
    case Uid(id) => if id < |t| then 1 else 0
    case Map(m) =>
      if IsDictionary(t, m) then |m["NS.keys"].items|
      else if IsArray(t, m) then |m["NS.objects"].items|
      else if IsError(t, m) then 1
      else 0
    case _ => 0
  }

  /** The i-th of them; None where the conversion of v panics before it gets there. */
  function Sub(t: seq<Value>, v: Value, i: nat): Option<Value>
    requires i < Count(t, v)
  {
    match v
    case Uid(id) => Some(t[id])
    case Map(m) =>
      if IsDictionary(t, m) then EntryAt(t, m["NS.keys"].items, m["NS.objects"].items, i)
      else if IsArray(t, m) then Some(m["NS.objects"].items[i])
      else Some(t[m["NSUserInfo"].id])
  }

  function EntryAt(t: seq<Value>, keys: seq<Value>, values: seq<Value>, i: nat): Option<Value>
    requires i < |keys|
  {
    if KeyString(t, keys[i]).Some? && i < |values| && InTable(t, values[i]) then Some(t[values[i].id]) else None
  }

  /** The conversion of v gets as far as that of its i-th value. */
  ghost predicate Reaches(t: seq<Value>, v: Value, i: nat) {
    i < Count(t, v) && Sub(t, v, i).Some?
    && forall j :: 0 <= j < i ==> Sub(t, v, j).Some? && Converts(t, Sub(t, v, j).value)
  }

  /** The conversion of v gets as far as that of w, given stack enough. */
  ghost predicate Passes(t: seq<Value>, v: Value, w: Value) {
    exists i: nat :: Reaches(t, v, i) && Sub(t, v, i) == Some(w)
  }

  /** On this stack, the conversion of v runs out of it at its i-th value. */
  ghost predicate OverflowAt(t: seq<Value>, v: Value, i: nat, stack: nat) {
    i < Count(t, v) && Sub(t, v, i).Some? && Convert(t, Sub(t, v, i).value, stack) == StackOverflow
    && forall j :: 0 <= j < i ==> Sub(t, v, j).Some? && Convert(t, Sub(t, v, j).value, stack).Ok?
  }

  ghost predicate EntryOverflow(t: seq<Value>, keys: seq<Value>, values: seq<Value>, i: nat, stack: nat) {
    i < |keys| && EntryAt(t, keys, values, i).Some?
    && Convert(t, EntryAt(t, keys, values, i).value, stack) == StackOverflow
    && forall j :: 0 <= j < i ==>
         EntryAt(t, keys, values, j).Some? && Convert(t, EntryAt(t, keys, values, j).value, stack).Ok?
  }

  lemma {:induction false} EntriesOverflow(t: seq<Value>, keys: seq<Value>, values: seq<Value>, n: nat, stack: nat)
    requires n <= |keys|
    ensures ConvertEntries(t, keys, values, n, stack) == StackOverflow
       <==> exists i: nat :: i < n && EntryOverflow(t, keys, values, i, stack)
    ensures ConvertEntries(t, keys, values, n, stack).Ok?
       <==> forall j :: 0 <= j < n ==>
              EntryAt(t, keys, values, j).Some? && Convert(t, EntryAt(t, keys, values, j).value, stack).Ok?
    decreases n
  {
    hide Convert, KeyString;
    if n > 0 {
      EntriesOverflow(t, keys, values, n - 1, stack);
      var sub := EntryAt(t, keys, values, n - 1);
      assert EntryOverflow(t, keys, values, n - 1, stack)
        <==> ConvertEntries(t, keys, values, n - 1, stack).Ok? && sub.Some?
             && Convert(t, sub.value, stack) == StackOverflow;
    }
  }

  ghost predicate ItemOverflow(t: seq<Value>, values: seq<Value>, i: nat, stack: nat) {
    i < |values| && Convert(t, values[i], stack) == StackOverflow
    && forall j :: 0 <= j < i ==> Convert(t, values[j], stack).Ok?
  }

  lemma {:induction false} ItemsOverflow(t: seq<Value>, values: seq<Value>, n: nat, stack: nat)
    requires n <= |values|
    ensures ConvertItems(t, values, n, stack) == StackOverflow
       <==> exists i: nat :: i < n && ItemOverflow(t, values, i, stack)
    ensures ConvertItems(t, values, n, stack).Ok? <==> forall j :: 0 <= j < n ==> Convert(t, values[j], stack).Ok?
    decreases n
  {
    hide Convert;
    if n > 0 {
      ItemsOverflow(t, values, n - 1, stack);
      assert ItemOverflow(t, values, n - 1, stack)
        <==> ConvertItems(t, values, n - 1, stack).Ok? && Convert(t, values[n-1], stack) == StackOverflow;
    }
  }

  /** A conversion runs out of stack exactly where one of those it asks for does. */
  lemma OverflowWhere(t: seq<Value>, v: Value, stack: nat)
    ensures Convert(t, v, stack + 1) == StackOverflow <==> exists i: nat :: OverflowAt(t, v, i, stack)
  {
    match v
    case Uid(id) => OneOverflow(t, v, stack);
    case Map(m) => MapOverflow(t, m, stack);
    case _ =>
  }

  lemma OneOverflow(t: seq<Value>, v: Value, stack: nat)
    requires v.Uid?
    ensures Convert(t, v, stack + 1) == StackOverflow <==> exists i: nat :: OverflowAt(t, v, i, stack)
  {
    if v.id < |t| && Convert(t, t[v.id], stack) == StackOverflow { assert OverflowAt(t, v, 0, stack); }
  }

  lemma MapOverflow(t: seq<Value>, m: map<string, Value>, stack: nat)
    ensures Convert(t, Map(m), stack + 1) == StackOverflow <==> exists i: nat :: OverflowAt(t, Map(m), i, stack)
  {
    hide ConvertEntries, ConvertItems, KeyString, Truncate, ClassName;
    if IsDictionary(t, m) {
      var keys, values := m["NS.keys"].items, m["NS.objects"].items;
      assert Convert(t, Map(m), stack + 1) == ConvertEntries(t, keys, values, |keys|, stack);
      EntriesOverflow(t, keys, values, |keys|, stack);
      hide Convert;
      forall i: nat | i < |keys| ensures Sub(t, Map(m), i) == EntryAt(t, keys, values, i) {}
      forall i: nat ensures OverflowAt(t, Map(m), i, stack) <==> EntryOverflow(t, keys, values, i, stack) {
        hide EntryAt;
      }
    } else if IsArray(t, m) {
      var values := m["NS.objects"].items;
      assert Convert(t, Map(m), stack + 1) == ConvertItems(t, values, |values|, stack);
      ItemsOverflow(t, values, |values|, stack);
      hide Convert;
      forall i: nat | i < |values| ensures Sub(t, Map(m), i) == Some(values[i]) {}
      forall i: nat ensures OverflowAt(t, Map(m), i, stack) <==> ItemOverflow(t, values, i, stack) {}
    } else if IsError(t, m) {
      var info := t[m["NSUserInfo"].id];
      assert Convert(t, Map(m), stack + 1) == StackOverflow <==> Convert(t, info, stack) == StackOverflow;
      hide Convert;
      if Convert(t, info, stack) == StackOverflow { assert OverflowAt(t, Map(m), 0, stack); }
    }
  }

  // ---------------------------------------------------------------------------------------------
  // A result that is not for want of stack is final
  // ---------------------------------------------------------------------------------------------

  lemma {:induction false} Settled(t: seq<Value>, v: Value, stack: nat, stack': nat)
    requires stack <= stack' && !Convert(t, v, stack).StackOverflow?
    ensures Convert(t, v, stack') == Convert(t, v, stack)
    decreases stack, 0
  {
    hide ConvertEntries, ConvertItems, KeyString, Truncate, ClassName;
    match v {
      case Map(m) =>
        if IsDictionary(t, m) {
          EntriesSettled(t, m["NS.keys"].items, m["NS.objects"].items, |m["NS.keys"].items|, stack - 1, stack' - 1);
        } else if IsArray(t, m) {
          ItemsSettled(t, m["NS.objects"].items, |m["NS.objects"].items|, stack - 1, stack' - 1);
        } else if IsError(t, m) {
          Settled(t, t[m["NSUserInfo"].id], stack - 1, stack' - 1);
        }
      case Uid(id) => if id < |t| { Settled(t, t[id], stack - 1, stack' - 1); }
      case _ =>
    }
  }

  lemma {:induction false} EntriesSettled(t: seq<Value>, keys: seq<Value>, values: seq<Value>, n: nat,
                                          stack: nat, stack': nat)
    requires n <= |keys| && stack <= stack' && !ConvertEntries(t, keys, values, n, stack).StackOverflow?
    ensures ConvertEntries(t, keys, values, n, stack') == ConvertEntries(t, keys, values, n, stack)
    decreases stack, 1, n
  {
    hide Convert, KeyString;
    if n > 0 {
      EntriesSettled(t, keys, values, n - 1, stack, stack');
      if ConvertEntries(t, keys, values, n - 1, stack).Ok? && EntryAt(t, keys, values, n - 1).Some? {
        Settled(t, t[values[n-1].id], stack, stack');
      }
    }
  }

  lemma {:induction false} ItemsSettled(t: seq<Value>, values: seq<Value>, n: nat, stack: nat, stack': nat)
    requires n <= |values| && stack <= stack' && !ConvertItems(t, values, n, stack).StackOverflow?
    ensures ConvertItems(t, values, n, stack') == ConvertItems(t, values, n, stack)
    decreases stack, 1, n
  {
    hide Convert;
    if n > 0 {
      ItemsSettled(t, values, n - 1, stack, stack');
      if ConvertItems(t, values, n - 1, stack).Ok? { Settled(t, values[n-1], stack, stack'); }
    }
  }

  /** A value that converts on some stack never panics on another. */
  lemma OkOrOverflow(t: seq<Value>, v: Value, stack: nat)
    requires Converts(t, v)
    ensures Convert(t, v, stack).Ok? || Convert(t, v, stack) == StackOverflow
  {
    hide Convert;
    var enough: nat :| Convert(t, v, enough).Ok?;
    if !Convert(t, v, stack).StackOverflow? {
      if stack <= enough { Settled(t, v, stack, enough); } else { Settled(t, v, enough, stack); }
    }
  }

  /** A value that does not diverge has a stack from which on it does not overflow. */
  lemma EnoughStack(t: seq<Value>, v: Value) returns (enough: nat)
    ensures !Diverges(t, v) ==> forall stack :: stack >= enough ==> !Convert(t, v, stack).StackOverflow?
  {
    hide Convert;
    enough := 0;
    if !Diverges(t, v) {
      enough :| Convert(t, v, enough) != StackOverflow;
      forall stack | stack >= enough ensures !Convert(t, v, stack).StackOverflow? { Settled(t, v, enough, stack); }
    }
  }

  /** The value asked for is there, and its conversion does not panic on this stack. */
  predicate Sound(t: seq<Value>, x: Option<Value>, stack: nat) {
    x.Some? && (Convert(t, x.value, stack).Ok? || Convert(t, x.value, stack) == StackOverflow)
  }

  // ---------------------------------------------------------------------------------------------
  // Divergence is passed on, and only passed on
  // ---------------------------------------------------------------------------------------------

  /** If the i-th value overflows and none before it panics, one of them is the first to overflow. */
  lemma {:induction false} FirstOverflow(t: seq<Value>, v: Value, i: nat, stack: nat) returns (first: nat)
    requires i < Count(t, v) && Sub(t, v, i).Some? && Convert(t, Sub(t, v, i).value, stack) == StackOverflow
    requires forall j :: 0 <= j < i ==> Sound(t, Sub(t, v, j), stack)
    ensures first <= i && OverflowAt(t, v, first, stack)
    decreases i
  {
    hide Convert, Count, Sub;
    if j: nat :| j < i && Convert(t, Sub(t, v, j).value, stack) == StackOverflow {
      first := FirstOverflow(t, v, j, stack);
    } else {
      first := i;
    }
  }

  lemma PassesOn(t: seq<Value>, v: Value, w: Value, stack: nat)
    requires Passes(t, v, w) && Convert(t, w, stack) == StackOverflow
    ensures Convert(t, v, stack + 1) == StackOverflow
  {
    hide Convert, Count, Sub, Converts;
    var i: nat :| Reaches(t, v, i) && Sub(t, v, i) == Some(w);
    forall j | 0 <= j < i
      ensures Convert(t, Sub(t, v, j).value, stack).Ok? || Convert(t, Sub(t, v, j).value, stack) == StackOverflow
    {
      OkOrOverflow(t, Sub(t, v, j).value, stack);
    }
    var first := FirstOverflow(t, v, i, stack);
    OverflowWhere(t, v, stack);
  }

  /** None of the first n values is where the conversion of v runs out of this stack. */
  ghost predicate Clear(t: seq<Value>, v: Value, n: nat, stack: nat) {
    forall i: nat :: i < n ==> !OverflowAt(t, v, i, stack)
  }

  /** With more stack there is no new place to run out of it. */
  lemma ClearLater(t: seq<Value>, v: Value, n: nat, stack: nat, stack': nat)
    requires Clear(t, v, n, stack) && stack <= stack'
    ensures Clear(t, v, n, stack')
  {
    hide Convert, Count, Sub;
    forall i: nat | i < n ensures !OverflowAt(t, v, i, stack') {
      if OverflowAt(t, v, i, stack') {
        forall j: nat | j <= i
          ensures Convert(t, Sub(t, v, j).value, stack) == StackOverflow
               || Convert(t, Sub(t, v, j).value, stack) == Convert(t, Sub(t, v, j).value, stack')
        {
          var x := Sub(t, v, j).value;
          if !Convert(t, x, stack).StackOverflow? { Settled(t, x, stack, stack'); }
        }
        var first := FirstOverflow(t, v, i, stack);
      }
    }
  }

  /** Of the first n values one is reached and diverges, or some stack is enough for all of them. */
  lemma {:induction false} Choice(t: seq<Value>, v: Value, n: nat) returns (found: bool, i: nat, stack: nat)
    requires n <= Count(t, v)
    ensures found ==> Reaches(t, v, i) && Diverges(t, Sub(t, v, i).value)
    ensures !found ==> Clear(t, v, n, stack)
    decreases n
  {
    hide Convert, Count, Sub, OverflowAt, Diverges, Converts;
    found, i, stack := false, 0, 0;
    if n > 0 {
      found, i, stack := Choice(t, v, n - 1);
      if !found {
        var before := stack;
        found, i, stack := ChoiceAt(t, v, n - 1, before);
        if !found {
          ClearLater(t, v, n - 1, before, stack);
        }
      }
    }
  }

  lemma ChoiceAt(t: seq<Value>, v: Value, n: nat, before: nat) returns (found: bool, i: nat, stack: nat)
    requires n < Count(t, v)
    ensures found ==> Reaches(t, v, i) && Diverges(t, Sub(t, v, i).value)
    ensures !found ==> stack >= before && !OverflowAt(t, v, n, stack)
  {
    hide Convert, Count, Sub;
    found, i, stack := false, n, before;
    if Reaches(t, v, n) {
      var w := Sub(t, v, n).value;
      if Diverges(t, w) {
        found := true;
      } else {
        var enough := EnoughStack(t, w);
        stack := if enough > before then enough else before;
      }
    } else {
      OverflowReached(t, v, n, stack);
    }
  }

  lemma OverflowReached(t: seq<Value>, v: Value, i: nat, stack: nat)
    ensures OverflowAt(t, v, i, stack) ==> Reaches(t, v, i)
  {
    hide Convert, Count, Sub;
  }

  lemma ClearEnough(t: seq<Value>, v: Value, stack: nat)
    requires Clear(t, v, Count(t, v), stack)
    ensures Convert(t, v, stack + 1) != StackOverflow
  {
    OverflowWhere(t, v, stack);
    hide Convert, Count, Sub;
  }

  /** A value diverges if and only if its conversion gets to one that does. */
  lemma DivergesStep(t: seq<Value>, v: Value)
    ensures Diverges(t, v) <==> exists w :: Passes(t, v, w) && Diverges(t, w)
  {
    hide Convert, Count, Sub, OverflowAt, Passes;
    if w :| Passes(t, v, w) && Diverges(t, w) {
      forall stack: nat ensures Convert(t, v, stack) == StackOverflow {
        if stack == 0 { NoStack(t, v); } else { PassesOn(t, v, w, stack - 1); }
      }
    } else if Diverges(t, v) {
      var w := NextDiverging(t, v);
    }
  }

  lemma NextDiverging(t: seq<Value>, v: Value) returns (w: Value)
    requires Diverges(t, v)
    ensures Passes(t, v, w) && Diverges(t, w)
  {
    hide Convert, Count, Sub, OverflowAt, Clear;
    var found, i, stack := Choice(t, v, Count(t, v));
    w := v;
    if found {
      w := Sub(t, v, i).value;
    } else {
      ClearEnough(t, v, stack);
      assert false;
    }
  }

  lemma NoStack(t: seq<Value>, v: Value)
    ensures Convert(t, v, 0) == StackOverflow
  {}

  // ---------------------------------------------------------------------------------------------
  // The theorem
  // ---------------------------------------------------------------------------------------------

  ghost predicate GoesOn(t: seq<Value>, loop: iset<Value>, x: Value) { exists y :: y in loop && Passes(t, x, y) }

  /** From every value of the loop the decoder gets to another one of it. */
  ghost predicate Endless(t: seq<Value>, loop: iset<Value>) { forall x :: x in loop ==> GoesOn(t, loop, x) }

  lemma {:induction false} EndlessOverflows(t: seq<Value>, loop: iset<Value>, v: Value, stack: nat)
    ensures v in loop && Endless(t, loop) ==> Convert(t, v, stack) == StackOverflow
    decreases stack
  {
    hide Convert, Passes, Endless, GoesOn;
    if stack == 0 {
      NoStack(t, v);
    } else if v in loop && Endless(t, loop) {
      var w := NextInLoop(t, loop, v);
      EndlessOverflows(t, loop, w, stack - 1);
      PassesOn(t, v, w, stack - 1);
    }
  }

  lemma NextInLoop(t: seq<Value>, loop: iset<Value>, x: Value) returns (y: Value)
    requires x in loop && Endless(t, loop)
    ensures y in loop && Passes(t, x, y)
  {
    hide Passes;
    assert GoesOn(t, loop, x);
    y :| y in loop && Passes(t, x, y);
  }

  /**
   On any table, decoding a value never ends if and only if the value stands in a loop: a set of values from each of
   which the decoder gets to another. It gets to an element or entry once all earlier ones have been converted.
   */
  lemma DivergesIff(t: seq<Value>, v: Value)
    ensures Diverges(t, v) <==> exists loop: iset<Value> :: v in loop && Endless(t, loop)
  {
    hide Convert, Passes, GoesOn;
    if Diverges(t, v) {
      var loop := iset x | Diverges(t, x);
      forall x | x in loop ensures GoesOn(t, loop, x) { DivergingGoesOn(t, x); }
      assert v in loop && Endless(t, loop);
    } else if loop: iset<Value> :| v in loop && Endless(t, loop) {
      EndlessDiverges(t, loop, v);
    }
  }

  lemma EndlessDiverges(t: seq<Value>, loop: iset<Value>, v: Value)
    requires v in loop && Endless(t, loop)
    ensures Diverges(t, v)
  {
    hide Convert, Endless;
    forall stack: nat ensures Convert(t, v, stack) == StackOverflow { EndlessOverflows(t, loop, v, stack); }
  }

  lemma DivergingGoesOn(t: seq<Value>, x: Value)
    requires Diverges(t, x)
    ensures GoesOn(t, (iset y | Diverges(t, y)), x)
  {
    hide Convert, Passes, Diverges;
    DivergesStep(t, x);
  }

  // ---------------------------------------------------------------------------------------------
  // Tables whose references all resolve
  // ---------------------------------------------------------------------------------------------

  /** The conversion of v itself meets no failed assertion; what it asks for is another matter. */
  predicate Whole(t: seq<Value>, v: Value) {
    match v
    case Uid(id) => id < |t|
    case Map(m) =>
      var cls := ClassName(t, m);
      cls.Some?
      && (DictionaryClass(cls.value) ==> IsDictionary(t, m))
      && (ArrayClass(cls.value) ==> IsArray(t, m))
      && (cls.value == "NSData" ==> "NS.data" in m && m["NS.data"].Data?)
      && (cls.value == "NSDate" ==> "NS.time" in m && m["NS.time"].Float?)
      && (cls.value == "NSError" ==> IsError(t, m))
    case _ => true
  }

  /** All values of the region are whole, and what they ask for is there and in the region. */
  ghost predicate Resolved(t: seq<Value>, region: iset<Value>) {
    forall x :: x in region ==> Whole(t, x) && AsksInside(t, region, x)
  }

  ghost predicate AsksInside(t: seq<Value>, region: iset<Value>, x: Value) {
    forall i: nat :: i < Count(t, x) ==> Sub(t, x, i).Some? && Sub(t, x, i).value in region
  }

  /** v holds a reference, or an element, that stands for w: nothing is asked of what stands before it. */
  ghost predicate Refers(t: seq<Value>, v: Value, w: Value) {
    exists i: nat :: i < Count(t, v) && Sub(t, v, i) == Some(w)
  }

  ghost predicate RefersOn(t: seq<Value>, chain: iset<Value>, x: Value) { exists y :: y in chain && Refers(t, x, y) }

  ghost predicate Cyclic(t: seq<Value>, chain: iset<Value>) { forall x :: x in chain ==> RefersOn(t, chain, x) }

  lemma WholeOutcome(t: seq<Value>, v: Value, stack: nat)
    requires Whole(t, v)
    requires forall i: nat :: i < Count(t, v) ==> Sound(t, Sub(t, v, i), stack)
    ensures Convert(t, v, stack + 1).Ok? || Convert(t, v, stack + 1) == StackOverflow
  {
    hide ConvertEntries, ConvertItems, KeyString, Truncate, ClassName;
    match v {
      case Map(m) =>
        if IsDictionary(t, m) {
          EntriesSound(t, m["NS.keys"].items, m["NS.objects"].items, |m["NS.keys"].items|, v, stack);
        } else if IsArray(t, m) {
          ItemsSound(t, m["NS.objects"].items, |m["NS.objects"].items|, v, stack);
        } else if IsError(t, m) {
          assert Sub(t, v, 0) == Some(t[m["NSUserInfo"].id]);
        }
      case Uid(id) => assert Sub(t, v, 0) == Some(t[id]);
      case _ =>
    }
  }

  lemma {:induction false} EntriesSound(t: seq<Value>, keys: seq<Value>, values: seq<Value>, n: nat,
                                        v: Value, stack: nat)
    requires v.Map? && IsDictionary(t, v.entries) && n <= |keys|
    requires keys == v.entries["NS.keys"].items && values == v.entries["NS.objects"].items
    requires forall i: nat :: i < Count(t, v) ==> Sound(t, Sub(t, v, i), stack)
    ensures var r := ConvertEntries(t, keys, values, n, stack); r.Ok? || r == StackOverflow
    decreases n
  {
    hide Convert, KeyString, ClassName;
    if n > 0 {
      EntriesSound(t, keys, values, n - 1, v, stack);
      assert Sub(t, v, n - 1) == EntryAt(t, keys, values, n - 1);
    }
  }

  lemma {:induction false} ItemsSound(t: seq<Value>, values: seq<Value>, n: nat, v: Value, stack: nat)
    requires v.Map? && !IsDictionary(t, v.entries) && IsArray(t, v.entries) && n <= |values|
    requires values == v.entries["NS.objects"].items
    requires forall i: nat :: i < Count(t, v) ==> Sound(t, Sub(t, v, i), stack)
    ensures var r := ConvertItems(t, values, n, stack); r.Ok? || r == StackOverflow
    decreases n
  {
    hide Convert, ClassName;
    if n > 0 {
      ItemsSound(t, values, n - 1, v, stack);
      assert Sub(t, v, n - 1) == Some(values[n - 1]);
    }
  }

  lemma {:induction false} NeverPanics(t: seq<Value>, region: iset<Value>, v: Value, stack: nat)
    requires v in region && Resolved(t, region)
    ensures Convert(t, v, stack).Ok? || Convert(t, v, stack) == StackOverflow
    decreases stack
  {
    hide Convert, Count, Sub, Whole;
    if stack == 0 {
      NoStack(t, v);
    } else {
      assert AsksInside(t, region, v);
      forall i: nat | i < Count(t, v)
        ensures var x := Sub(t, v, i).value;
                Convert(t, x, stack - 1).Ok? || Convert(t, x, stack - 1) == StackOverflow
      {
        NeverPanics(t, region, Sub(t, v, i).value, stack - 1);
      }
      WholeOutcome(t, v, stack - 1);
    }
  }

  lemma ConvertsOrDiverges(t: seq<Value>, region: iset<Value>, v: Value)
    requires v in region && Resolved(t, region)
    ensures Converts(t, v) || Diverges(t, v)
  {
    hide Convert, Resolved;
    if !Converts(t, v) {
      forall stack: nat ensures Convert(t, v, stack) == StackOverflow { NeverPanics(t, region, v, stack); }
    }
  }

  /** The first of the values up to the i-th that diverges is reached; if there is none before the i-th, that one is. */
  lemma {:induction false} ReachedOrDiverging(t: seq<Value>, region: iset<Value>, v: Value, i: nat) returns (at: nat)
    requires v in region && Resolved(t, region) && i < Count(t, v)
    ensures at <= i && Reaches(t, v, at) && (at == i || Diverges(t, Sub(t, v, at).value))
    decreases i
  {
    hide Convert, Count, Sub, Whole, Converts, Diverges;
    assert AsksInside(t, region, v);
    if j: nat :| j < i && !Converts(t, Sub(t, v, j).value) {
      ConvertsOrDiverges(t, region, Sub(t, v, j).value);
      at := ReachedOrDiverging(t, region, v, j);
    } else {
      at := i;
    }
  }

  /** What a chain of references and the values that diverge have in common: the decoder gets from each to another. */
  lemma ChainGoesOn(t: seq<Value>, region: iset<Value>, chain: iset<Value>, x: Value) returns (y: Value)
    requires Resolved(t, region) && Cyclic(t, chain)
    requires (x in chain && x in region) || Diverges(t, x)
    ensures Passes(t, x, y) && ((y in chain && y in region) || Diverges(t, y))
  {
    hide Convert, Count, Sub, Whole, Converts, Diverges;
    if Diverges(t, x) {
      DivergesStep(t, x);
      hide Passes;
      y :| Passes(t, x, y) && Diverges(t, y);
    } else {
      assert RefersOn(t, chain, x) && AsksInside(t, region, x);
      var z :| z in chain && Refers(t, x, z);
      var i: nat :| i < Count(t, x) && Sub(t, x, i) == Some(z);
      var at := ReachedOrDiverging(t, region, x, i);
      y := Sub(t, x, at).value;
    }
  }

  /**
   Where all references resolve it is a matter of structure alone: decoding a value never ends if and only if an
   endless chain of references starts from it.
   */
  lemma ResolvedIff(t: seq<Value>, region: iset<Value>, v: Value)
    requires v in region && Resolved(t, region)
    ensures Diverges(t, v) <==> exists chain: iset<Value> :: v in chain && Cyclic(t, chain)
  {
    hide Convert, Diverges, Passes, Refers, Resolved, Whole;
    DivergesIff(t, v);
    if Diverges(t, v) {
      var loop: iset<Value> :| v in loop && Endless(t, loop);
      EndlessCyclic(t, loop);
    } else if chain: iset<Value> :| v in chain && Cyclic(t, chain) {
      ChainDiverges(t, region, chain, v);
    }
  }

  lemma ChainDiverges(t: seq<Value>, region: iset<Value>, chain: iset<Value>, v: Value)
    requires v in region && v in chain && Resolved(t, region) && Cyclic(t, chain)
    ensures Diverges(t, v)
  {
    hide Diverges, Passes, Resolved, Cyclic;
    var loop := iset x | (x in chain && x in region) || Diverges(t, x);
    forall x | x in loop ensures GoesOn(t, loop, x) {
      var y := ChainGoesOn(t, region, chain, x);
      assert y in loop;
    }
    EndlessDiverges(t, loop, v);
  }

  lemma EndlessCyclic(t: seq<Value>, loop: iset<Value>)
    requires Endless(t, loop)
    ensures Cyclic(t, loop)
  {
    hide Count, Sub, Converts, Endless;
    forall x | x in loop ensures RefersOn(t, loop, x) {
      var y := NextInLoop(t, loop, x);
      var i: nat :| Reaches(t, x, i) && Sub(t, x, i) == Some(y);
      assert Refers(t, x, y);
    }
  }
}
