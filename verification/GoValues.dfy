/**
 Go's dynamic values (interface{}), as the two keyed archivers see them: what a caller hands in,
 what stands in an object table, and what the decoder gives back.
 */
module GoValues {
  import opened Bytes

  /** One integer atom: a property list returns every Go integer kind in one normalised form. */
  type word = n: int | -TWO63 <= n < TWO64

  /** 1.0 in units of the smallest positive float, 2^-1074: every finite float is a whole number of them. */
  const TWO256: int := TWO64 * TWO64 * TWO64 * TWO64
  const FLOAT_ONE: int := TWO256 * TWO256 * TWO256 * TWO256 * 0x4_0000_0000_0000

  datatype Value =
    | Nil
    | Bool(b: bool)
    | Int(n: word)
    | Float(units: int)
    | Str(s: string)
    | Data(bytes: seq<byte>)
    | Uid(id: nat)
    | Slice(items: seq<Value>)
    | Map(entries: map<string, Value>)
    | NSURL(path: string)
    | NSUUID(uuid: seq<byte>)
    | XCTestConfiguration(fields: map<string, Value>)
    | NSError(code: int, domain: string, userInfo: Value)
    | Date(seconds: int)

  /** What a Go call that may panic, or run out of stack, gives back. */
  datatype Outcome = Ok(value: Value) | Panic | StackOverflow | PlistError

  /** The integers a byte slice holds, element by element. */
  function Ints(bs: seq<byte>): (r: seq<Value>)
    ensures |r| == |bs|
  {
    seq(|bs|, i requires 0 <= i < |bs| => Int(bs[i]))
  }

  /** Strings, booleans, integers, and slices and string-keyed maps of them: plain values. */
  ghost predicate Plain(v: Value) {
    match v
    case Str(_) => true
    case Bool(_) => true
    case Int(_) => true
    case Slice(items) => forall i :: 0 <= i < |items| ==> Plain(items[i])
    case Map(m) => forall k :: k in m ==> Plain(m[k])
    case _ => false
  }

  /** Number of table slots a value takes when it is flattened. */
  ghost function Size(v: Value): (n: nat)
    ensures n >= 1
    decreases v, 1
  {
    match v
    case Slice(items) => 2 + SliceSize(items)
    case Data(bs) => 2 + |bs|
    case Map(m) => 2 + EntriesSize(v, m, m.Keys)
    case NSURL(_) => 3
    case NSUUID(_) => 2
    case XCTestConfiguration(m) => 2 + FieldsSize(v, m, m.Keys)
    case _ => 1
  }

  ghost function SliceSize(items: seq<Value>): nat
    decreases items, 0
  {
    if items == [] then 0 else SliceSize(items[..|items|-1]) + Size(items[|items|-1])
  }

  /** Each entry of a dictionary takes one slot for its key and those of its value. */
  ghost function EntriesSize(v: Value, m: map<string, Value>, keys: set<string>): nat
    requires v == Map(m) && keys <= m.Keys
    decreases v, 0, keys
  {
    if keys == {} then 0
    else
      var k :| k in keys;
      1 + Size(m[k]) + EntriesSize(v, m, keys - {k})
  }

  /** nil fields and inlined scalars of a test configuration take no slot of their own. */
  ghost predicate Inlined(name: string, v: Value) {
    v.Nil? || (name != "formatVersion" && (v.Bool? || v.Int?))
  }

  ghost function FieldsSize(v: Value, m: map<string, Value>, keys: set<string>): nat
    requires v == XCTestConfiguration(m) && keys <= m.Keys
    decreases v, 0, keys
  {
    if keys == {} then 0
    else
      var k :| k in keys;
      (if Inlined(k, m[k]) then 0 else Size(m[k])) + FieldsSize(v, m, keys - {k})
  }

  /** The sum over the entries does not depend on which entry is taken first. */
  lemma {:induction false} EntriesSizePick(v: Value, m: map<string, Value>, keys: set<string>, k: string)
    requires v == Map(m) && keys <= m.Keys && k in keys
    ensures EntriesSize(v, m, keys) == 1 + Size(m[k]) + EntriesSize(v, m, keys - {k})
    decreases keys
  {
    var j :| j in keys && EntriesSize(v, m, keys) == 1 + Size(m[j]) + EntriesSize(v, m, keys - {j});
    if j != k {
      EntriesSizePick(v, m, keys - {j}, k);
      EntriesSizePick(v, m, keys - {k}, j);
      assert keys - {j} - {k} == keys - {k} - {j};
    }
  }

  lemma {:induction false} FieldsSizePick(v: Value, m: map<string, Value>, keys: set<string>, k: string)
    requires v == XCTestConfiguration(m) && keys <= m.Keys && k in keys
    ensures FieldsSize(v, m, keys)
         == (if Inlined(k, m[k]) then 0 else Size(m[k])) + FieldsSize(v, m, keys - {k})
    decreases keys
  {
    var j :| j in keys && FieldsSize(v, m, keys)
                       == (if Inlined(j, m[j]) then 0 else Size(m[j])) + FieldsSize(v, m, keys - {j});
    if j != k {
      FieldsSizePick(v, m, keys - {j}, k);
      FieldsSizePick(v, m, keys - {k}, j);
      assert keys - {j} - {k} == keys - {k} - {j};
    }
  }
}
