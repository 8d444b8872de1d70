/** The exact-length loops of safeConn, pkg/libimobiledevice/usbmux.go, over short reads and writes. */
module SafeConns {
  import opened Bytes

  /** One call of the underlying connection: how many bytes it is ready to move, and whether it reports an error. */
  datatype Turn = Turn(n: nat, err: bool)

  datatype ReadResult = Data(data: seq<byte>) | ReadError | StillReading

  datatype WriteResult = Success | WriteError | StillWriting

  function Min(a: nat, b: nat): nat { if a < b then a else b }

  /**
   The bytes a write gets onto the wire and how it ends. A write of nothing without an error ends the loop
   with the nil error it carries.
   */
  function WriteLoop(n: nat, turns: seq<Turn>): (nat, WriteResult) {
    if n == 0 then (0, Success)
    else if turns == [] then (0, StillWriting)
    else
      var sent := Min(turns[0].n, n);
      if turns[0].err then (sent, WriteError)
      else if sent == 0 then (0, Success)
      else
        var (more, r) := WriteLoop(n - sent, turns[1..]);
        (sent + more, r)
  }

  class SafeConn {
    var incoming: seq<byte>
    var outgoing: seq<byte>

    constructor (stream: seq<byte>)
      ensures incoming == stream && outgoing == []
    {
      incoming, outgoing := stream, [];
    }

    /**
     Read: whatever the connection's turns are, a read that succeeds has taken exactly the next `length`
     bytes. An error is only looked at when nothing came with it, and the bytes read before it are gone.
     */
    method Read(length: nat, turns: seq<Turn>) returns (r: ReadResult)
      modifies this`incoming
      ensures r.Data? ==> length <= |old(incoming)| && r.data == old(incoming)[..length]
      ensures r.Data? ==> incoming == old(incoming)[length..]
      ensures !r.Data? ==> exists k :: 0 <= k < length && k <= |old(incoming)| && incoming == old(incoming)[k..]
      ensures length <= |old(incoming)| && |turns| >= length && (forall i :: 0 <= i < |turns| ==> turns[i].n > 0)
              ==> r.Data?
    {
      var data: seq<byte> := [];
      var i := 0;
      while |data| < length
        invariant |data| <= length && |data| <= |old(incoming)| && i <= |turns|
        invariant data == old(incoming)[..|data|] && incoming == old(incoming)[|data|..]
        invariant length <= |old(incoming)| && (forall j :: 0 <= j < |turns| ==> turns[j].n > 0) ==>
                  |data| >= Min(i, length)
        decreases |turns| - i
      {
        if i == |turns| {
          return StillReading;
        }
        var n := Min(turns[i].n, Min(length - |data|, |incoming|));
        if turns[i].err && n == 0 {
          return ReadError;
        }
        assert old(incoming)[..|data|] + old(incoming)[|data|..][..n] == old(incoming)[..|data| + n];
        data := data + incoming[..n];
        incoming := incoming[n..];
        i := i + 1;
      }
      r := Data(data);
    }

    method Write(data: seq<byte>, turns: seq<Turn>) returns (r: WriteResult)
      modifies this`outgoing
      ensures WriteLoop(|data|, turns).0 <= |data|
      ensures outgoing == old(outgoing) + data[..WriteLoop(|data|, turns).0] && r == WriteLoop(|data|, turns).1
    {
      WriteLoopBound(|data|, turns);
      var totalSent, i := 0, 0;
      while totalSent < |data|
        invariant 0 <= totalSent <= |data| && 0 <= i <= |turns|
        invariant outgoing == old(outgoing) + data[..totalSent]
        invariant WriteLoop(|data|, turns) == (totalSent + WriteLoop(|data| - totalSent, turns[i..]).0,
                                               WriteLoop(|data| - totalSent, turns[i..]).1)
        decreases |turns| - i
      {
        if i == |turns| { return StillWriting; }
        assert turns[i..][1..] == turns[i+1..];
        var sent := Min(turns[i].n, |data| - totalSent);
        assert data[..totalSent] + data[totalSent..totalSent + sent] == data[..totalSent + sent];
        outgoing := outgoing + data[totalSent..totalSent + sent];
        if turns[i].err { return WriteError; }
        if sent == 0 { return Success; }
        totalSent := totalSent + sent;
        i := i + 1;
      }
      r := Success;
    }
  }

  lemma {:induction false} WriteLoopBound(n: nat, turns: seq<Turn>)
    ensures WriteLoop(n, turns).0 <= n
    decreases |turns|
  {
    if n > 0 && turns != [] && !turns[0].err && turns[0].n > 0 {
      WriteLoopBound(n - Min(turns[0].n, n), turns[1..]);
    }
  }

  /** The write reaches a turn of zero bytes, without an error, before it is done. */
  predicate Stalls(n: nat, turns: seq<Turn>) {
    n > 0 && turns != [] && !turns[0].err
    && (turns[0].n == 0 || Stalls(n - Min(turns[0].n, n), turns[1..]))
  }

  /**
   A write that reports success has put exactly its data on the stream, once and in order, if and only if it
   met no turn of zero bytes. With such a turn it reports success all the same.
   */
  lemma {:induction false} WriteComplete(n: nat, turns: seq<Turn>)
    ensures WriteLoop(n, turns).1.Success? ==> (WriteLoop(n, turns).0 == n <==> !Stalls(n, turns))
    ensures Stalls(n, turns) ==> WriteLoop(n, turns).1.Success?
    decreases |turns|
  {
    if n > 0 && turns != [] && !turns[0].err && turns[0].n > 0 {
      WriteComplete(n - Min(turns[0].n, n), turns[1..]);
    }
  }

  function Total(turns: seq<Turn>): nat { if turns == [] then 0 else Total(turns[..|turns|-1]) + turns[|turns|-1].n }

  lemma {:induction false} TotalFront(t: Turn, turns: seq<Turn>)
    ensures Total([t] + turns) == t.n + Total(turns)
    decreases |turns|
  {
    var all := [t] + turns;
    if turns == [] {
      assert all[..0] == [];
    } else {
      assert all[..|all|-1] == [t] + turns[..|turns|-1];
      TotalFront(t, turns[..|turns|-1]);
    }
  }

  /** The turns of a write: all but the last move something without an error, and are not enough. */
  predicate Needed(n: nat, turns: seq<Turn>, k: nat) {
    k <= |turns| && (forall j :: 0 <= j < k - 1 ==> turns[j].n > 0 && !turns[j].err)
    && (k > 0 ==> Total(turns[..k-1]) < n)
  }

  /**
   How far a write gets: it takes the turns it needs and moves what they offer, up to its length. An error in the last
   of them is the error of the write, whatever moved with it.
   */
  lemma {:induction false} WriteTurns(n: nat, turns: seq<Turn>) returns (k: nat)
    ensures Needed(n, turns, k) && WriteLoop(n, turns).0 == Min(n, Total(turns[..k]))
    ensures WriteLoop(n, turns).1
         == if k > 0 && turns[k-1].err then WriteError
            else if Total(turns[..k]) >= n || (k > 0 && turns[k-1].n == 0) then Success
            else StillWriting
    ensures WriteLoop(n, turns).1.StillWriting? ==> k == |turns|
    decreases |turns|
  {
    hide Total, Needed;
    k := 0;
    NoTurn(n, turns);
    if n > 0 && turns != [] {
      var t, rest := turns[0], turns[1..];
      assert turns == [t] + rest && rest[..0] == [];
      OneTurn(n, t, rest);
      k := 1;
      if !t.err && 0 < t.n < n {
        var more := WriteTurns(n - t.n, rest);
        k := more + 1;
        NeededFront(n, t, rest, more);
      }
    }
  }

  lemma NoTurn(n: nat, turns: seq<Turn>)
    ensures Needed(n, turns, 0) && Total(turns[..0]) == 0
  {}

  lemma OneTurn(n: nat, t: Turn, rest: seq<Turn>)
    ensures n > 0 ==> Needed(n, [t] + rest, 1)
    ensures Total(([t] + rest)[..0]) == 0 && Total(([t] + rest)[..1]) == t.n
  {
    assert ([t] + rest)[..1] == [t] && [t][..0] == [];
  }

  lemma NeededFront(n: nat, t: Turn, rest: seq<Turn>, k: nat)
    requires !t.err && 0 < t.n < n && Needed(n - t.n, rest, k)
    ensures Needed(n, [t] + rest, k + 1) && Total(([t] + rest)[..k+1]) == t.n + Total(rest[..k])
    ensures ([t] + rest)[k] == if k == 0 then t else rest[k-1]
  {
    hide Total;
    var turns := [t] + rest;
    assert turns[..k+1] == [t] + rest[..k];
    TotalFront(t, rest[..k]);
    OneTurn(n, t, rest);
    if k > 0 {
      assert turns[..k] == [t] + rest[..k-1];
      TotalFront(t, rest[..k-1]);
    }
    forall j | 0 <= j < k ensures turns[j].n > 0 && !turns[j].err {
      if j > 0 { assert turns[j] == rest[j-1]; }
    }
  }
}
