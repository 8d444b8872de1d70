/** The NUL-separated string lists of AFC: toCString of afc.go, Strings and Map of afcmessage.go. */
module AfcStrings {
  import opened Bytes
  import opened Unarchiver

  /** A Go string: any bytes. */
  type Text = seq<byte>

  const AFC_OPERATION_DATA: u64 := 2

  function CStrings(ss: seq<Text>): seq<byte> {
    if ss == [] then [] else CStrings(ss[..|ss|-1]) + ss[|ss|-1] + [0]
  }

  method ToCString(ss: seq<Text>) returns (buf: seq<byte>)
    ensures buf == CStrings(ss)
  {
    buf := [];
    for i := 0 to |ss|
      invariant buf == CStrings(ss[..i])
    {
      assert ss[..i+1][..i] == ss[..i];
      buf := buf + ss[i];
      buf := buf + [0];
    }
    assert ss[..|ss|] == ss;
  }

  /** bytes.Split at the zero byte: the pieces between separators, one more than there are separators. */
  function Pieces(b: seq<byte>): (ps: seq<Text>)
    ensures |ps| > 0
  {
    if b == [] then [[]]
    else
      var ps := Pieces(b[1..]);
      if b[0] == 0 then [[]] + ps else [[b[0]] + ps[0]] + ps[1..]
  }

  /** Strings of a message: nil unless it is a Data message; the piece behind the last NUL is dropped. */
  function StringsOf(operation: u64, payload: seq<byte>): seq<Text> {
    if operation != AFC_OPERATION_DATA then []
    else
      var ps := Pieces(payload);
      ps[..|ps|-1]
  }

  method Strings(operation: u64, payload: seq<byte>) returns (ss: seq<Text>)
    ensures ss == StringsOf(operation, payload)
  {
    ss := [];
    if operation == AFC_OPERATION_DATA {
      var bs := Pieces(payload);
      for i := 0 to |bs| - 1
        invariant ss == bs[..i]
      {
        ss := ss + [bs[i]];
      }
    }
  }

  function Nuls(b: seq<byte>): nat {
    if b == [] then 0 else (if b[0] == 0 then 1 else 0) + Nuls(b[1..])
  }

  predicate NulFree(s: Text) { 0 !in s }

  lemma {:induction false} NulFreeNuls(s: Text)
    ensures Nuls(s) == 0 <==> NulFree(s)
    decreases |s|
  {
    if s != [] {
      NulFreeNuls(s[1..]);
      assert s == [s[0]] + s[1..];
    }
  }

  lemma {:induction false} NulsAppend(a: seq<byte>, b: seq<byte>)
    ensures Nuls(a + b) == Nuls(a) + Nuls(b)
    decreases |a|
  {
    if a == [] {
      assert a + b == b;
    } else {
      assert (a + b)[1..] == a[1..] + b;
      NulsAppend(a[1..], b);
    }
  }

  lemma {:induction false} PiecesCount(b: seq<byte>)
    ensures |Pieces(b)| == Nuls(b) + 1
    decreases |b|
  {
    if b != [] { PiecesCount(b[1..]); }
  }

  /** A NUL-free prefix closed by a NUL is the first piece. */
  lemma {:induction false} PiecesFirst(s: Text, rest: seq<byte>)
    requires NulFree(s)
    ensures Pieces(s + [0] + rest) == [s] + Pieces(rest)
    decreases |s|
  {
    var b := s + [0] + rest;
    if s == [] {
      assert b[1..] == rest;
    } else {
      assert b[1..] == s[1..] + [0] + rest;
      assert s == [s[0]] + s[1..];
      PiecesFirst(s[1..], rest);
    }
  }

  lemma CStringsLast(ss: seq<Text>, rest: seq<byte>)
    requires ss != []
    ensures CStrings(ss) + rest == CStrings(ss[..|ss|-1]) + (ss[|ss|-1] + [0] + rest)
  {
    Regroup(CStrings(ss[..|ss|-1]), ss[|ss|-1], [0], rest);
  }

  lemma Regroup<T>(a: seq<T>, b: seq<T>, c: seq<T>, d: seq<T>)
    ensures a + b + c + d == a + (b + c + d)
  {}

  lemma {:induction false} PiecesOfCStrings(ss: seq<Text>, rest: seq<byte>)
    requires forall i :: 0 <= i < |ss| ==> NulFree(ss[i])
    ensures Pieces(CStrings(ss) + rest) == ss + Pieces(rest)
    decreases |ss|
  {
    if ss == [] {
      assert CStrings(ss) + rest == rest && ss + Pieces(rest) == Pieces(rest);
    } else {
      hide Pieces, CStrings, NulFree;
      var front, last := ss[..|ss|-1], ss[|ss|-1];
      CStringsLast(ss, rest);
      PiecesOfCStrings(front, last + [0] + rest);
      PiecesFirst(last, rest);
      assert front + ([last] + Pieces(rest)) == (front + [last]) + Pieces(rest);
      assert ss == front + [last];
    }
  }

  lemma {:induction false} CStringsNuls(ss: seq<Text>)
    ensures Nuls(CStrings(ss)) >= |ss|
    ensures (exists i :: 0 <= i < |ss| && !NulFree(ss[i])) ==> Nuls(CStrings(ss)) > |ss|
    decreases |ss|
  {
    if ss != [] {
      var n := |ss| - 1;
      CStringsNuls(ss[..n]);
      NulsAppend(CStrings(ss[..n]) + ss[n], [0]);
      NulsAppend(CStrings(ss[..n]), ss[n]);
      NulFreeNuls(ss[n]);
    }
  }

  /** Strings undoes toCString exactly on the lists in which no string holds a NUL. */
  lemma StringsRoundTrip(ss: seq<Text>)
    ensures StringsOf(2, CStrings(ss)) == ss <==> forall i :: 0 <= i < |ss| ==> 0 !in ss[i]
    ensures forall operation :: operation != 2 ==> StringsOf(operation, CStrings(ss)) == []
  {
    if forall i :: 0 <= i < |ss| ==> NulFree(ss[i]) {
      PiecesOfCStrings(ss, []);
      assert CStrings(ss) + [] == CStrings(ss) && Pieces([]) == [[]];
    } else {
      PiecesCount(CStrings(ss));
      CStringsNuls(ss);
    }
  }

  lemma {:induction false} CStringsFront(s: Text, ss: seq<Text>)
    ensures CStrings([s] + ss) == s + [0] + CStrings(ss)
    decreases |ss|
  {
    if ss == [] {
      assert ([s] + ss)[..0] == [] && CStrings([]) == [];
      assert [s] + ss == [s];
    } else {
      var n := |ss| - 1;
      assert ([s] + ss)[..|ss|] == [s] + ss[..n];
      CStringsFront(s, ss[..n]);
    }
  }

  /** Pieces put together again. */
  function Unsplit(ps: seq<Text>): seq<byte>
    requires ps != []
  {
    CStrings(ps[..|ps|-1]) + ps[|ps|-1]
  }

  lemma UnsplitNul(qs: seq<Text>)
    requires qs != []
    ensures Unsplit([[]] + qs) == [0] + Unsplit(qs)
  {
    var ps := [[]] + qs;
    assert ps[..|ps|-1] == [[]] + qs[..|qs|-1];
    CStringsFront([], qs[..|qs|-1]);
    assert [] + [0] + CStrings(qs[..|qs|-1]) == [0] + CStrings(qs[..|qs|-1]);
  }

  lemma UnsplitByte(c: byte, qs: seq<Text>)
    requires qs != []
    ensures Unsplit([[c] + qs[0]] + qs[1..]) == [c] + Unsplit(qs)
  {
    hide CStrings;
    var ps := [[c] + qs[0]] + qs[1..];
    if |qs| == 1 {
      assert ps[..0] == qs[..0] == [] && CStrings([]) == [] by { NoStrings(); }
    } else {
      var more := qs[1..|qs|-1];
      assert ps[..|ps|-1] == [[c] + qs[0]] + more && qs[..|qs|-1] == [qs[0]] + more;
      CStringsFront([c] + qs[0], more);
      CStringsFront(qs[0], more);
    }
  }

  lemma NoStrings()
    ensures CStrings([]) == []
  {}

  lemma {:induction false} JoinPieces(b: seq<byte>)
    ensures Unsplit(Pieces(b)) == b
    decreases |b|
  {
    if b == [] {
      assert Pieces(b)[..0] == [];
    } else {
      hide Unsplit;
      var qs := Pieces(b[1..]);
      JoinPieces(b[1..]);
      assert b == [b[0]] + b[1..];
      if b[0] == 0 { UnsplitNul(qs); } else { UnsplitByte(b[0], qs); }
    }
  }

  /** And toCString undoes Strings exactly on the payloads that are empty or end in a NUL. */
  lemma PayloadRoundTrip(b: seq<byte>)
    ensures CStrings(StringsOf(2, b)) == b <==> b == [] || b[|b|-1] == 0
  {
    var ps := Pieces(b);
    JoinPieces(b);
    var front, last := CStrings(ps[..|ps|-1]), ps[|ps|-1];
    if front == b {
      assert last == [];
    }
    LastPiece(b);
  }

  /** No piece holds a NUL. */
  lemma {:induction false} LastPiece(b: seq<byte>)
    ensures forall i :: 0 <= i < |Pieces(b)| ==> NulFree(Pieces(b)[i])
    decreases |b|
  {
    if b != [] { LastPiece(b[1..]); }
  }

  // ---------------------------------------------------------------------------------------------
  // Map
  // ---------------------------------------------------------------------------------------------

  /** The map of the first n pairs, later pairs overwriting earlier ones. */
  function PairsMap(ss: seq<Text>, n: nat): map<Text, Text>
    requires 2 * n <= |ss|
  {
    if n == 0 then map[] else PairsMap(ss, n - 1)[ss[2 * n - 2] := ss[2 * n - 1]]
  }

  /** Map of a message; None is the index panic on an odd number of strings. */
  method MapOf(operation: u64, payload: seq<byte>) returns (ret: Option<map<Text, Text>>)
    ensures var ss := StringsOf(operation, payload);
            if |ss| % 2 == 1 then ret.None? else ret == Some(PairsMap(ss, |ss| / 2))
  {
    var m: map<Text, Text> := map[];
    var ss := Strings(operation, payload);
    var i := 0;
    while i < |ss|
      invariant i % 2 == 0 && i <= |ss| + 1 && (i <= |ss| ==> m == PairsMap(ss, i / 2)) && (|ss| % 2 == 1 ==> i < |ss|)
    {
      if i + 1 >= |ss| { return None; }
      m := m[ss[i] := ss[i + 1]];
      i := i + 2;
    }
    ret := Some(m);
  }

  /** Only keys of pairs are in the map, and all of them. */
  lemma {:induction false} MapKeys(ss: seq<Text>, n: nat, k: Text)
    requires 2 * n <= |ss|
    ensures k in PairsMap(ss, n) <==> exists j :: 0 <= j < n && ss[2 * j] == k
    decreases n
  {
    if n > 0 {
      MapKeys(ss, n - 1, k);
      if ss[2 * (n - 1)] == k { assert ss[2 * n - 2] == k; }
    }
  }

  /** The value of a key is the one of its last pair. */
  lemma {:induction false} LastWins(ss: seq<Text>, n: nat, j: nat)
    requires 2 * n <= |ss| && j < n && forall i :: j < i < n ==> ss[2 * i] != ss[2 * j]
    ensures ss[2 * j] in PairsMap(ss, n) && PairsMap(ss, n)[ss[2 * j]] == ss[2 * j + 1]
    decreases n
  {
    if j < n - 1 {
      LastWins(ss, n - 1, j);
      assert ss[2 * (n - 1)] != ss[2 * j];
    }
  }
}
