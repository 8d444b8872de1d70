/**
 Reading a device file to its end: AfcFile.Read of afc.go inside the loop of io.Copy, and which AFC statuses are
 errors (Err and toError of pkg/libimobiledevice/afcmessage.go).
 */
module AfcFiles {
  import opened Bytes

  const AFC_OPERATION_STATUS: u64 := 1
  const AFC_OPERATION_DATA: u64 := 2

  /** What comes back to one FileRead: nothing, or a message; its status is read in a Status message only. */
  datatype Answer = Broken | Answer(operation: u64, status: u64, payload: seq<byte>)

  /** The statuses toError has an error for. */
  predicate Listed(status: u64) { 1 <= status <= 23 || 30 <= status <= 33 }

  /** Err of a message. */
  method Err(a: Answer) returns (failed: bool)
    requires a.Answer?
    ensures failed <==> Refuses(a)
    ensures failed <==> a.operation == 1 && a.status in {1, 2, 3, 4, 5, 6, 7, 8, 9, 10, 11, 12, 13, 14, 15, 16, 17, 18,
                                                         19, 20, 21, 22, 23, 30, 31, 32, 33}
  {
    if a.operation == AFC_OPERATION_STATUS && a.status != 0 { return Listed(a.status); }
    failed := false;
  }

  predicate Refuses(a: Answer) { a.Answer? && a.operation == AFC_OPERATION_STATUS && Listed(a.status) }

  /** The bytes asked for at a time. */
  const BUFFER: nat := 32768

  datatype Copied = Done(data: seq<byte>) | Failed(data: seq<byte>) | StillCopying(data: seq<byte>)

  function Behind(data: seq<byte>, r: Copied): Copied {
    match r
    case Done(more) => Done(data + more)
    case Failed(more) => Failed(data + more)
    case StillCopying(more) => StillCopying(data + more)
  }

  function Chunk(b: seq<byte>): seq<byte> { if |b| <= BUFFER then b else b[..BUFFER] }

  /** What a copy has written when it ends. An answer without a payload is the end of the file. */
  function Copy(answers: seq<Answer>): Copied {
    if answers == [] then StillCopying([])
    else if answers[0].Broken? || Refuses(answers[0]) then Failed([])
    else if answers[0].payload == [] then Done([])
    else Behind(Chunk(answers[0].payload), Copy(answers[1..]))
  }

  /** AfcFile.Read with a buffer of BUFFER bytes. */
  datatype ReadResult = Read(data: seq<byte>) | EndOfFile | ReadError

  method ReadFile(a: Answer) returns (r: ReadResult)
    ensures r == if a.Broken? || Refuses(a) then ReadError
                 else if a.payload == [] then EndOfFile
                 else Read(if |a.payload| <= 32768 then a.payload else a.payload[..32768])
  {
    if a.Broken? { return ReadError; }
    var failed := Err(a);
    if failed { return ReadError; }
    if a.payload == [] { return EndOfFile; }
    r := Read(Chunk(a.payload));
  }

  method CopyAll(answers: seq<Answer>) returns (r: Copied)
    ensures r == Copy(answers)
  {
    var written: seq<byte> := [];
    var i := 0;
    while i < |answers|
      invariant i <= |answers|
      invariant Copy(answers) == Behind(written, Copy(answers[i..]))
    {
      var read := ReadFile(answers[i]);
      assert answers[i..][1..] == answers[i+1..];
      match read {
        case ReadError => return Failed(written);
        case EndOfFile => return Done(written);
        case Read(data) =>
          BehindBehind(written, data, Copy(answers[i+1..]));
          written := written + data;
      }
      i := i + 1;
    }
    r := StillCopying(written);
  }

  lemma BehindBehind(a: seq<byte>, b: seq<byte>, r: Copied)
    ensures Behind(a, Behind(b, r)) == Behind(a + b, r)
  {
    assert a + (b + r.data) == a + b + r.data;
  }

  /** An answer that brings a piece of the file. */
  predicate Piece(a: Answer) { a.Answer? && !Refuses(a) && a.payload != [] }

  function PiecesOf(answers: seq<Answer>): seq<byte>
    requires forall i :: 0 <= i < |answers| ==> Piece(answers[i])
  {
    if answers == [] then []
    else
      assert Piece(answers[0]);
      Chunk(answers[0].payload) + PiecesOf(answers[1..])
  }

  /**
   Whatever the answers are, a copy has written the pieces before the first answer that brings none, and that answer
   decides how it ends.
   */
  lemma {:induction false} CopyPieces(answers: seq<Answer>) returns (k: nat)
    ensures k <= |answers| && (forall i :: 0 <= i < k ==> Piece(answers[i]))
    ensures Copy(answers).data == PiecesOf(answers[..k])
    ensures Copy(answers).StillCopying? <==> k == |answers|
    ensures k < |answers| ==>
              !Piece(answers[k]) && (Copy(answers).Done? <==> answers[k].Answer? && !Refuses(answers[k]))
    decreases |answers|
  {
    k := 0;
    if answers != [] && Piece(answers[0]) {
      k := CopyPieces(answers[1..]);
      assert answers[..k+1][1..] == answers[1..][..k];
      k := k + 1;
    }
  }

  // ---------------------------------------------------------------------------------------------
  // A device that serves a file
  // ---------------------------------------------------------------------------------------------

  /** Every data answer is the next piece of what is left of the file; a status answer has no payload. */
  predicate Serves(answers: seq<Answer>, content: seq<byte>)
    decreases |answers|
  {
    answers == [] || answers[0].Broken?
    || (answers[0].operation == AFC_OPERATION_STATUS && answers[0].payload == [])
    || (answers[0].operation == AFC_OPERATION_DATA && answers[0].payload == Chunk(content)
        && Serves(answers[1..], content[|Chunk(content)|..]))
  }

  /** A status that is no error comes before the file is at its end. */
  predicate Interrupted(answers: seq<Answer>, content: seq<byte>)
    decreases |answers|
  {
    answers != [] && content != [] && answers[0].Answer? && !Refuses(answers[0])
    && (answers[0].operation == AFC_OPERATION_STATUS
        || Interrupted(answers[1..], content[|Chunk(content)|..]))
  }

  /**
   A copy writes a beginning of the file, however it ends. One that ends without an error has written all of it if
   and only if no status without an error came early: success (0), or any status that toError does not list.
   */
  lemma {:induction false} CopyExact(answers: seq<Answer>, content: seq<byte>)
    requires Serves(answers, content)
    ensures Copy(answers).data <= content
    ensures Copy(answers).Done? ==> (Copy(answers).data == content <==> !Interrupted(answers, content))
    decreases |answers|
  {
    if answers != [] && answers[0].Answer? && answers[0].operation == AFC_OPERATION_DATA && content != [] {
      var piece := Chunk(content);
      CopyExact(answers[1..], content[|piece|..]);
      assert content == piece + content[|piece|..];
    }
  }

  /** Such a status exists: 24, for one. */
  lemma UnlistedCuts(content: seq<byte>)
    requires content != []
    ensures var answers := [Answer(AFC_OPERATION_STATUS, 24, [])];
            Serves(answers, content) && Interrupted(answers, content) && Copy(answers) == Done([])
  {
    assert !Refuses(Answer(AFC_OPERATION_STATUS, 24, []));
  }
}
