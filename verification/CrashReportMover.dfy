/**
 The crash report mover, crashreportmover.go: it walks a tree on the device, copies every file to the host
 and removes it from the tree it is walking. Paths are sequences of names, the empty one is ".".
 */
module CrashReportMovers {
  import opened Bytes

  type Path = seq<string>

  datatype Node = File(content: seq<byte>) | Dir

  /**
   How far the callback gets with one file before a call fails. A copy may break off part way; it may also be cut
   short without anybody noticing, when a read is answered with a status that is no error to the AFC client.
   */
  datatype Fate = OpenFails | MkdirFails | CreateFails | CopyFails(n: nat) | RemoveFails | CutShort(n: nat) | Smooth

  /** The answer to a request for a listing: such a status passes for an empty directory. */
  datatype ListAnswer = Names | Refused | Silent

  /** What the device and the host let happen: each path is listed, asked for and visited at most once. */
  datatype Env = Env(fate: Path -> Fate, listing: Path -> ListAnswer, statFails: Path -> bool,
                     description: seq<byte> -> DescriptionOf, extraction: nat -> Extraction)

  /** The description in a property list read back for extraction, if it can be read and has one. */
  datatype DescriptionOf = NoDescription | Description(text: seq<byte>)

  /** How far the n-th extraction gets: the host file is read back, and its description saved beside it. */
  datatype Extraction = ReadFails | NotCreated | WriteBreaks(n: nat) | Saved

  datatype Options = Options(keep: bool, extract: bool)

  datatype Site = Site(device: map<Path, Node>, host: map<Path, seq<byte>>, toExtract: seq<Path>)

  // ---------------------------------------------------------------------------------------------
  // Paths and trees
  // ---------------------------------------------------------------------------------------------

  predicate HasSuffix(s: string, suffix: string) {
    |s| >= |suffix| && s[|s| - |suffix|..] == suffix
  }

  function TrimSuffix(s: string, suffix: string): string {
    if HasSuffix(s, suffix) then s[..|s| - |suffix|] else s
  }

  /** The file a device file is copied to: its name without ".synced". */
  function HostName(p: Path): Path {
    if p == [] then p else p[..|p|-1] + [TrimSuffix(p[|p|-1], ".synced")]
  }

  predicate IsPlist(h: Path) { h != [] && HasSuffix(h[|h|-1], ".plist") }

  /** A name that is ".synced" and nothing else leaves the path of a directory, which is not created as a file. */
  predicate Creatable(h: Path) { h != [] && h[|h|-1] != "" }

  function CrashName(h: Path): Path {
    if h == [] then h else h[..|h|-1] + [TrimSuffix(h[|h|-1], ".plist") + ".crash"]
  }

  /** q lies below p. */
  predicate Below(p: Path, q: Path) { |p| < |q| && q[..|p|] == p }

  /** Every path but the root stands in a directory, and none is made with a dot name. */
  ghost predicate Tree(fs: map<Path, Node>) {
    [] in fs && fs[[]].Dir?
    && (forall q :: q in fs && q != [] ==> q[..|q|-1] in fs && fs[q[..|q|-1]].Dir?)
    && (forall q :: q in fs && q != [] ==> q[|q|-1] != "." && q[|q|-1] != "..")
  }

  ghost function Subtree(fs: map<Path, Node>, p: Path): set<Path> { set q | q in fs && Below(p, q) }

  lemma {:induction false} AncestorsIn(fs: map<Path, Node>, q: Path, k: nat)
    requires Tree(fs) && q in fs && k <= |q|
    ensures q[..k] in fs && (k < |q| ==> fs[q[..k]].Dir?)
    decreases |q|
  {
    if k < |q| {
      AncestorsIn(fs, q[..|q|-1], k);
      assert q[..|q|-1][..k] == q[..k];
    } else {
      assert q[..k] == q;
    }
  }

  // ---------------------------------------------------------------------------------------------
  // One visit, and a list of visits replayed
  // ---------------------------------------------------------------------------------------------

  function Prefix(content: seq<byte>, n: nat): seq<byte> { if n <= |content| then content[..n] else content }

  /** The callback of Move on the entry at p. */
  function Visit(s: Site, p: Path, env: Env, opt: Options): Site {
    if p !in s.device || s.device[p].Dir? then s
    else
      var h, content := HostName(p), s.device[p].content;
      var s1 := if opt.extract && IsPlist(h) then s.(toExtract := s.toExtract + [h]) else s;
      if !Creatable(h) then s1
      else match env.fate(p)
      case OpenFails => s1
      case MkdirFails => s1
      case CreateFails => s1
      case CopyFails(n) => s1.(host := s.host[h := Prefix(content, n)])
      case RemoveFails => s1.(host := s.host[h := content])
      case CutShort(n) =>
        s1.(host := s.host[h := Prefix(content, n)], device := if opt.keep then s.device else s.device - {p})
      case Smooth =>
        s1.(host := s.host[h := content], device := if opt.keep then s.device else s.device - {p})
  }

  /** The device answers about the entry q: it can be looked at, and listed if it is a directory. */
  predicate Answers(fs: map<Path, Node>, env: Env, q: Path)
    requires q in fs
  {
    !env.statFails(q) && (fs[q].Dir? ==> env.listing(q) != Refused)
  }

  /** On the way from dir to q there is a directory that passes for an empty one. */
  predicate Hidden(env: Env, dir: Path, q: Path) {
    exists k :: |dir| <= k < |q| && env.listing(q[..k]) == Silent
  }

  /** The entries below dir that a walk gets to see. */
  ghost function Seen(fs: map<Path, Node>, env: Env, dir: Path): set<Path> {
    set q | q in Subtree(fs, dir) && !Hidden(env, dir, q)
  }

  /** A walk from dir can be made to its end. */
  ghost predicate Walkable(fs: map<Path, Node>, env: Env, dir: Path) {
    env.listing(dir) != Refused && forall q :: q in Seen(fs, env, dir) ==> Answers(fs, env, q)
  }

  function Replay(s: Site, log: seq<Path>, env: Env, opt: Options): Site {
    if log == [] then s else Visit(Replay(s, log[..|log|-1], env, opt), log[|log|-1], env, opt)
  }

  lemma {:induction false} ReplayAppend(s: Site, a: seq<Path>, b: seq<Path>, env: Env, opt: Options)
    ensures Replay(s, a + b, env, opt) == Replay(Replay(s, a, env, opt), b, env, opt)
    decreases |b|
  {
    if b == [] {
      assert a + b == a;
    } else {
      var n := |b| - 1;
      assert (a + b)[..|a| + n] == a + b[..n];
      ReplayAppend(s, a, b[..n], env, opt);
    }
  }

  /** One turn of the extraction loop of Move. */
  function Extract(host: map<Path, seq<byte>>, h: Path, env: Env, extraction: Extraction): map<Path, seq<byte>> {
    if extraction.ReadFails? || h !in host then host
    else
      match env.description(host[h])
      case NoDescription => host
      case Description(text) =>
        match extraction
        case NotCreated => host
        case WriteBreaks(n) => host[CrashName(h) := if n <= |text| then text[..n] else text]
        case Saved => host[CrashName(h) := text]
  }

  function Extracted(host: map<Path, seq<byte>>, names: seq<Path>, env: Env): map<Path, seq<byte>> {
    if names == [] then host
    else Extract(Extracted(host, names[..|names|-1], env), names[|names|-1], env, env.extraction(|names|-1))
  }

  /** The visits of a whole walk, and the extraction after it if it was asked for. */
  function Moved(s: Site, log: seq<Path>, env: Env, opt: Options): Site {
    var walked := Replay(s, log, env, opt);
    if opt.extract then walked.(host := Extracted(walked.host, walked.toExtract, env)) else walked
  }

  predicate NoRepeats(log: seq<Path>) { forall i, j :: 0 <= i < j < |log| ==> log[i] != log[j] }

  /** No directory is visited before anything below it. */
  predicate ContentsFirst(log: seq<Path>) { forall i, j :: 0 <= i < j < |log| ==> !Below(log[i], log[j]) }

  /** The visits of a walk below p: each entry once, a directory after its contents. */
  ghost predicate Visits(fs: map<Path, Node>, env: Env, p: Path, log: seq<Path>) {
    NoRepeats(log) && ContentsFirst(log) && (forall q :: q in log ==> q in Seen(fs, env, p))
  }

  // ---------------------------------------------------------------------------------------------
  // The walk
  // ---------------------------------------------------------------------------------------------

  /** The names a directory may be listed with: each entry once, in any order, and dot names anywhere. */
  ghost predicate Listing(fs: map<Path, Node>, dir: Path, names: seq<string>) {
    (forall n :: dir + [n] in fs ==> n in names)
    && (forall i :: 0 <= i < |names| ==> Dot(names[i]) || dir + [names[i]] in fs)
    && (forall i, j :: 0 <= i < j < |names| && names[i] == names[j] ==> Dot(names[i]))
  }

  predicate Dot(n: string) { n == "." || n == ".." }

  /** What the first i names of a listing stand for. */
  ghost function Covered(fs: map<Path, Node>, env: Env, dir: Path, names: seq<string>, i: nat): set<Path>
    requires i <= |names|
  {
    set q | q in Seen(fs, env, dir) && q[|dir|] in names[..i] && !Dot(q[|dir|])
  }

  function ChildNames(fs: map<Path, Node>, dir: Path): set<string> {
    set q | q in fs && Below(dir, q) && |q| == |dir| + 1 :: q[|dir|]
  }

  lemma ChildName(fs: map<Path, Node>, dir: Path, n: string)
    ensures n in ChildNames(fs, dir) <==> dir + [n] in fs
  {
    if n in ChildNames(fs, dir) {
      var q :| q in fs && Below(dir, q) && |q| == |dir| + 1 && q[|dir|] == n;
      assert q == dir + [n];
    }
    if dir + [n] in fs {
      assert Below(dir, dir + [n]) && (dir + [n])[|dir|] == n;
    }
  }

  lemma ListingOf(fs: map<Path, Node>, dir: Path, names: seq<string>)
    requires Tree(fs) && |names| >= 2 && names[0] == "." && names[1] == ".."
    requires forall n :: n in ChildNames(fs, dir) ==> n in names
    requires forall i :: 2 <= i < |names| ==> names[i] in ChildNames(fs, dir)
    requires forall i, j :: 2 <= i < j < |names| ==> names[i] != names[j]
    ensures Listing(fs, dir, names)
  {
    hide ChildNames;
    forall n | n in ChildNames(fs, dir) ensures dir + [n] in fs && !Dot(n) {
      ChildName(fs, dir, n);
      assert (dir + [n])[|dir + [n]| - 1] == n;
    }
    forall n | dir + [n] in fs ensures n in names { ChildName(fs, dir, n); }
  }

  // ---------------------------------------------------------------------------------------------
  // What visits leave standing
  // ---------------------------------------------------------------------------------------------

  /** After any visits the device has lost files only, and only files visited. */
  lemma {:induction false} ReplayDevice(s: Site, log: seq<Path>, env: Env, opt: Options)
    ensures var d := Replay(s, log, env, opt).device;
            (forall q :: q in d ==> q in s.device && d[q] == s.device[q])
            && (forall q :: q in s.device && (q !in log || s.device[q].Dir?) ==> q in d)
    decreases |log|
  {
    if log != [] {
      hide Visit;
      var before, p := log[..|log|-1], log[|log|-1];
      ReplayDevice(s, before, env, opt);
      VisitDevice(Replay(s, before, env, opt), p, env, opt);
      assert log == before + [p];
    }
  }

  lemma VisitDevice(now: Site, p: Path, env: Env, opt: Options)
    ensures var after := Visit(now, p, env, opt).device;
            after == now.device || (p in now.device && now.device[p].File? && after == now.device - {p})
  {
    hide HostName, IsPlist, Creatable;
  }

  lemma ReplayTree(s: Site, log: seq<Path>, env: Env, opt: Options)
    requires Tree(s.device)
    ensures Tree(Replay(s, log, env, opt).device)
  {
    ReplayDevice(s, log, env, opt);
    hide Replay;
  }

  /** A subtree none of whose entries has been visited stands as it was. */
  lemma ReplaySubtree(s: Site, log: seq<Path>, env: Env, opt: Options, p: Path)
    requires forall q :: q in log ==> !Below(p, q)
    ensures Subtree(Replay(s, log, env, opt).device, p) == Subtree(s.device, p)
  {
    ReplayDevice(s, log, env, opt);
    hide Replay;
  }

  // ---------------------------------------------------------------------------------------------
  // Putting the visits of a directory together
  // ---------------------------------------------------------------------------------------------

  lemma CoveredNone(fs: map<Path, Node>, env: Env, dir: Path, names: seq<string>)
    ensures Covered(fs, env, dir, names, 0) == {}
  {}

  lemma CoveredAll(fs: map<Path, Node>, env: Env, dir: Path, names: seq<string>)
    requires Tree(fs) && Listing(fs, dir, names)
    ensures Covered(fs, env, dir, names, |names|) == Seen(fs, env, dir)
  {
    assert names[..|names|] == names;
    forall q | q in Seen(fs, env, dir) ensures q in Covered(fs, env, dir, names, |names|) {
      UnderAName(fs, dir, names, q);
    }
  }

  lemma UnderAName(fs: map<Path, Node>, dir: Path, names: seq<string>, q: Path)
    requires Tree(fs) && Listing(fs, dir, names) && q in Subtree(fs, dir)
    ensures q[|dir|] in names && !Dot(q[|dir|])
  {
    EntryAbove(fs, dir, q);
    hide Tree;
  }

  lemma EntryAbove(fs: map<Path, Node>, dir: Path, q: Path)
    requires Tree(fs) && q in fs && Below(dir, q)
    ensures dir + [q[|dir|]] in fs && !Dot(q[|dir|])
  {
    AncestorsIn(fs, q, |dir| + 1);
    var a := q[..|dir| + 1];
    assert a == dir + [q[|dir|]] && a[|a|-1] == q[|dir|];
  }

  /** One more name: the entry itself and what lies below it. */
  lemma CoveredStep(fs: map<Path, Node>, env: Env, dir: Path, names: seq<string>, i: nat)
    requires i < |names| && (Dot(names[i]) || dir + [names[i]] in fs) && env.listing(dir) != Silent
    ensures Covered(fs, env, dir, names, i + 1)
         == Covered(fs, env, dir, names, i)
            + if Dot(names[i]) then {} else Seen(fs, env, dir + [names[i]]) + {dir + [names[i]]}
  {
    var p := dir + [names[i]];
    SeenChild(fs, env, dir, p);
    hide Seen;
    forall q | q in fs && Below(dir, q) ensures q[|dir|] == names[i] <==> q == p || Below(p, q) {
      if q[|dir|] == names[i] {
        assert q[..|p|] == p;
        if |q| == |p| { assert q == p; }
      }
      if Below(p, q) { assert q[..|p|][|dir|] == p[|dir|]; }
    }
    assert names[..i+1] == names[..i] + [names[i]];
    assert Below(dir, p);
    forall q | Below(p, q) ensures Below(dir, q) { assert q[..|p|][..|dir|] == p[..|dir|] == dir; }
  }

  /** An entry of a directory that is listed is seen, and so is what is seen from there, and nothing else below it. */
  lemma SeenChild(fs: map<Path, Node>, env: Env, dir: Path, p: Path)
    requires env.listing(dir) != Silent && Below(dir, p) && |p| == |dir| + 1
    ensures p in fs ==> p in Seen(fs, env, dir)
    ensures forall q :: Below(p, q) ==> (q in Seen(fs, env, dir) <==> q in Seen(fs, env, p))
    ensures forall q :: q in Seen(fs, env, dir) || q in Seen(fs, env, p) ==> q in fs && Below(dir, q)
    ensures forall q :: q in Seen(fs, env, p) ==> Below(p, q)
  {
    BelowBelow(dir, p);
    forall q | Below(p, q) ensures Hidden(env, dir, q) <==> Hidden(env, p, q) {
      assert q[..|dir|] == q[..|p|][..|dir|] == dir;
      if Hidden(env, dir, q) {
        var k :| |dir| <= k < |q| && env.listing(q[..k]) == Silent;
        assert k != |dir|;
      }
    }
    assert p[..|dir|] == dir;
  }

  lemma NameBelow(p: Path, q: Path, k: nat)
    requires k < |p| && (q == p || Below(p, q))
    ensures q[k] == p[k]
  {
    assert q[..|p|][k] == p[k];
  }

  /** The entries of different names keep apart. */
  lemma Apart(fs: map<Path, Node>, env: Env, dir: Path, names: seq<string>, i: nat, q: Path)
    requires Listing(fs, dir, names) && i < |names| && !Dot(names[i]) && q in Covered(fs, env, dir, names, i)
    ensures q != dir + [names[i]] && !Below(dir + [names[i]], q) && |q| > |dir|
    ensures forall r :: (r == dir + [names[i]] || Below(dir + [names[i]], r)) ==> !Below(q, r)
  {
    var p, k := dir + [names[i]], |dir|;
    assert q[k] in names[..i] && q[k] != p[k];
    if q == p || Below(p, q) { NameBelow(p, q, k); }
    forall r | r == p || Below(p, r) ensures !Below(q, r) {
      NameBelow(p, r, k);
      if Below(q, r) { NameBelow(q, r, k); }
    }
  }

  /** The visits so far, those of the subtree, and the entry itself: still each once, contents first. */
  lemma VisitsStep(fs: map<Path, Node>, env: Env, dir: Path, names: seq<string>, i: nat, log: seq<Path>, sub: seq<Path>,
        tail: seq<Path>)
    requires Listing(fs, dir, names) && i < |names| && !Dot(names[i])
    requires NoRepeats(log) && ContentsFirst(log) && forall q :: q in log ==> q in Covered(fs, env, dir, names, i)
    requires NoRepeats(sub) && ContentsFirst(sub) && forall q :: q in sub ==> Below(dir + [names[i]], q)
    requires tail == [] || tail == [dir + [names[i]]]
    ensures NoRepeats(log + sub + tail) && ContentsFirst(log + sub + tail)
  {
    var p, all := dir + [names[i]], log + sub + tail;
    forall q | q in log ensures q != p && !Below(p, q) && forall r :: (r == p || Below(p, r)) ==> !Below(q, r) {
      Apart(fs, env, dir, names, i, q);
    }
    forall a, b | 0 <= a < b < |all| ensures all[a] != all[b] && !Below(all[a], all[b]) {
      if b < |log| {
      } else if a < |log| {
        assert all[a] in log && (all[b] in sub || all[b] == p);
      } else if b < |log| + |sub| {
        assert all[a] == sub[a - |log|] && all[b] == sub[b - |log|];
      } else {
        assert all[a] in sub && all[b] == p;
      }
    }
  }

  class CrashReportMover {
    var device: map<Path, Node>
    var host: map<Path, seq<byte>>
    var toExtract: seq<Path>

    ghost function View(): Site
      reads this
    {
      Site(device, host, toExtract)
    }

    constructor (tree: map<Path, Node>)
      ensures View() == Site(tree, map[], [])
    {
      device, host, toExtract := tree, map[], [];
    }

    method ReadDir(dir: Path) returns (names: seq<string>)
      requires Tree(device)
      ensures Listing(device, dir, names)
    {
      hide ChildNames, Listing;
      names := [".", ".."];
      var rest := ChildNames(device, dir);
      while rest != {}
        invariant rest <= ChildNames(device, dir) && |names| >= 2 && names[0] == "." && names[1] == ".."
        invariant forall n :: n in ChildNames(device, dir) ==> n in rest || n in names
        invariant forall i :: 2 <= i < |names| ==> names[i] in ChildNames(device, dir) && names[i] !in rest
        invariant forall i, j :: 2 <= i < j < |names| ==> names[i] != names[j]
        decreases rest
      {
        // in whatever order the device keeps them
        var n :| n in rest;
        names := names + [n];
        rest := rest - {n};
      }
      ListingOf(device, dir, names);
    }

    /** The per-file callback. */
    method Callback(p: Path, env: Env, opt: Options)
      requires p in device
      modifies this
      ensures View() == Visit(old(View()), p, env, opt)
    {
      hide HostName, IsPlist, Creatable;
      if device[p].Dir? { return; }
      var hostFilename := HostName(p);
      if opt.extract && IsPlist(hostFilename) { toExtract := toExtract + [hostFilename]; }
      var content := device[p].content;
      var fate := env.fate(p);
      if fate.OpenFails? || fate.MkdirFails? || fate.CreateFails? || !Creatable(hostFilename) { return; }
      var copied := CopyFile(hostFilename, content, fate);
      if !copied || opt.keep { return; }
      if fate.RemoveFails? { return; }
      device := device - {p};
    }

    /** The host file is created empty and filled as far as the copy gets. */
    method CopyFile(hostFilename: Path, content: seq<byte>, fate: Fate) returns (ok: bool)
      modifies this`host
      ensures ok <==> !fate.CopyFails?
      ensures host == old(host)[hostFilename :=
                        if fate.CopyFails? || fate.CutShort? then Prefix(content, fate.n) else content]
    {
      host := host[hostFilename := []];
      if fate.CopyFails? || fate.CutShort? {
        host := host[hostFilename := Prefix(content, fate.n)];
      } else {
        host := host[hostFilename := content];
      }
      ok := !fate.CopyFails?;
    }

    /**
     walkDir. Whatever fails, the visits made are visits of entries below the directory, no entry twice and
     every directory after its contents, and all that has happened to device and host is what the callback
     does on these visits one after the other. The walk returns no error exactly if the device answers about
     everything below the directory that it shows, and then it has visited every such entry, although the callback
     removes the files it has seen from the tree.
     */
    method WalkDir(dir: Path, env: Env, opt: Options) returns (ok: bool, ghost log: seq<Path>)
      requires Tree(device) && dir in device && device[dir].Dir?
      modifies this
      ensures View() == Replay(old(View()), log, env, opt)
      ensures Visits(old(device), env, dir, log)
      ensures ok <==> Walkable(old(device), env, dir)
      ensures ok ==> forall q :: q in Seen(old(device), env, dir) ==> q in log
      decreases Subtree(device, dir)
    {
      hide Replay, Visit, Covered, Listing, Tree, Answers, Walkable, Seen;
      log := [];
      ReplayNothing(View(), env, opt);
      NotWalkable(device, env, dir);
      if env.listing(dir) == Refused { return false, log; }
      SilentSeen(device, env, dir);
      if env.listing(dir) == Silent { return true, log; } // nothing to go through
      var names := ReadDir(dir);
      ghost var fs, start := device, View();
      CoveredNone(fs, env, dir, names);
      for i := 0 to |names|
        invariant View() == Replay(start, log, env, opt)
        invariant NoRepeats(log) && ContentsFirst(log)
        invariant forall q :: q in log <==> q in Covered(fs, env, dir, names, i)
        invariant forall q :: q in log ==> q in fs && Answers(fs, env, q)
      {
        NameListed(fs, dir, names, i);
        CoveredStep(fs, env, dir, names, i);
        if names[i] == "." || names[i] == ".." { continue; }
        CoveredInside(fs, env, dir, names, i);
        var p := dir + [names[i]];
        SeenChild(fs, env, dir, p);
        NotWalkable(fs, env, dir);
        if env.statFails(p) { return false, log; }
        forall q | q in log ensures q != p && !Below(p, q) { Apart(fs, env, dir, names, i, q); }
        ReplayDevice(start, log, env, opt);
        ghost var sub: seq<Path> := [];
        if device[p].Dir? {
          ReplayTree(start, log, env, opt);
          ReplaySubtree(start, log, env, opt, p);
          SubtreeSmaller(fs, dir, p);
          SameAnswers(fs, device, env, p);
          var walked;
          walked, sub := WalkDir(p, env, opt);
          ReplayAppend(start, log, sub, env, opt);
          VisitsStep(fs, env, dir, names, i, log, sub, []);
          assert log + sub + [] == log + sub;
          ReplayDevice(start, log + sub, env, opt);
          if !walked {
            if Walkable(fs, env, dir) { WalkableBelow(fs, env, dir, p); }
            BelowBelow(dir, p);
            return false, log + sub;
          }
        } else {
          FileAlone(fs, p);
          assert log + sub == log;
        }
        AllAnswer(fs, env, p);
        ghost var before := log + sub;
        Callback(p, env, opt);
        ReplayOne(start, before, p, env, opt);
        VisitsStep(fs, env, dir, names, i, log, sub, [p]);
        log := before + [p];
      }
      CoveredAll(fs, env, dir, names);
      WholeWalk(fs, env, dir);
      ok := true;
    }

    /** Move: the walk from ".", then the extraction of descriptions if it was asked for and the walk went well. */
    method Move(env: Env, opt: Options) returns (ok: bool, ghost log: seq<Path>)
      requires Tree(device)
      modifies this
      ensures Visits(old(device), env, [], log)
      ensures ok <==> Walkable(old(device), env, [])
      ensures ok ==> forall q :: q in Seen(old(device), env, []) ==> q in log
      ensures var s := old(View()).(toExtract := []);
              View() == if ok then Moved(s, log, env, opt) else Replay(s, log, env, opt)
    {
      hide Replay, Extract, Walkable, Visits, Subtree;
      toExtract := [];
      ok, log := WalkDir([], env, opt);
      if !ok || !opt.extract { return; }
      ExtractNames(env, toExtract);
    }

    /** The extraction loop. */
    method ExtractNames(env: Env, names: seq<Path>)
      modifies this`host
      ensures host == Extracted(old(host), names, env)
    {
      hide Extract;
      for i := 0 to |names|
        invariant host == Extracted(old(host), names[..i], env)
      {
        assert names[..i+1][..i] == names[..i];
        ExtractName(env, names[i], env.extraction(i));
      }
      assert names[..|names|] == names;
    }

    method ExtractName(env: Env, name: Path, extraction: Extraction)
      modifies this`host
      ensures host == Extract(old(host), name, env, extraction)
    {
      hide CrashName;
      if extraction.ReadFails? || name !in host { return; }
      var description := env.description(host[name]);
      if description.NoDescription? { return; }
      var hostExtCrash, text := CrashName(name), description.text;
      if extraction.NotCreated? { return; }
      host := host[hostExtCrash := []];
      if extraction.WriteBreaks? {
        host := host[hostExtCrash := if extraction.n <= |text| then text[..extraction.n] else text];
        return;
      }
      host := host[hostExtCrash := text];
    }
  }

  lemma SameAnswers(fs: map<Path, Node>, fs': map<Path, Node>, env: Env, p: Path)
    requires Subtree(fs', p) == Subtree(fs, p) && forall q :: q in fs' ==> q in fs && fs'[q] == fs[q]
    ensures Seen(fs', env, p) == Seen(fs, env, p)
    ensures Walkable(fs', env, p) <==> Walkable(fs, env, p)
  {
    assert Seen(fs', env, p) == Seen(fs, env, p);
    hide Hidden;
    if Walkable(fs', env, p) {
      forall q | q in Seen(fs, env, p) ensures Answers(fs, env, q) { assert q in Seen(fs', env, p); }
    } else if env.listing(p) != Refused {
      var q :| q in Seen(fs', env, p) && !Answers(fs', env, q);
      assert q in Seen(fs, env, p) && !Answers(fs, env, q);
    }
  }

  lemma NotWalkable(fs: map<Path, Node>, env: Env, dir: Path)
    ensures env.listing(dir) == Refused ==> !Walkable(fs, env, dir)
    ensures forall q :: q in Seen(fs, env, dir) && env.statFails(q) ==> !Walkable(fs, env, dir)
  {
    hide Hidden;
    forall q | q in Seen(fs, env, dir) && env.statFails(q) ensures !Walkable(fs, env, dir) {
      assert !Answers(fs, env, q);
    }
  }

  lemma SilentSeen(fs: map<Path, Node>, env: Env, dir: Path)
    ensures env.listing(dir) == Silent ==> Seen(fs, env, dir) == {} && Walkable(fs, env, dir)
  {
    if env.listing(dir) == Silent {
      forall q | q in Subtree(fs, dir) ensures Hidden(env, dir, q) { assert env.listing(q[..|dir|]) == Silent; }
    }
  }

  lemma WholeWalk(fs: map<Path, Node>, env: Env, dir: Path)
    requires env.listing(dir) != Refused && forall q :: q in Seen(fs, env, dir) ==> Answers(fs, env, q)
    ensures Walkable(fs, env, dir)
  {}

  /** An entry that has been looked at and, if it is a directory, walked. */
  lemma AllAnswer(fs: map<Path, Node>, env: Env, p: Path)
    requires p in fs && !env.statFails(p)
    requires if fs[p].Dir? then Walkable(fs, env, p) else Subtree(fs, p) == {}
    ensures Answers(fs, env, p) && forall q :: q in Seen(fs, env, p) ==> q in fs && Answers(fs, env, q)
    ensures fs[p].File? ==> Seen(fs, env, p) == {}
  {
    hide Hidden;
  }

  /** A walk that cannot be made from a directory cannot be made from the one above it. */
  lemma WalkableBelow(fs: map<Path, Node>, env: Env, dir: Path, p: Path)
    requires p in fs && fs[p].Dir? && Below(dir, p) && |p| == |dir| + 1
    requires env.listing(dir) != Silent && Walkable(fs, env, dir)
    ensures Walkable(fs, env, p)
  {
    SeenChild(fs, env, dir, p);
    assert p in Seen(fs, env, dir);
    hide Seen;
  }

  /** A walk gets to see everything below a directory unless one passes for empty that is not. */
  lemma AllSeenIff(fs: map<Path, Node>, env: Env, dir: Path)
    requires Tree(fs) && dir in fs
    ensures Seen(fs, env, dir) == Subtree(fs, dir)
       <==> forall p :: (p == dir || p in Subtree(fs, dir)) && env.listing(p) == Silent ==> Subtree(fs, p) == {}
  {
    if p, q :| (p == dir || p in Subtree(fs, dir)) && env.listing(p) == Silent && q in Subtree(fs, p) {
      BelowBelow(p, q);
      if p != dir { BelowBelow(dir, p); }
      assert q[..|p|] == p;
      assert Hidden(env, dir, q) && q in Subtree(fs, dir) && q !in Seen(fs, env, dir);
    } else {
      forall q | q in Subtree(fs, dir) ensures !Hidden(env, dir, q) { NotHidden(fs, env, dir, q); }
    }
  }

  lemma NotHidden(fs: map<Path, Node>, env: Env, dir: Path, q: Path)
    requires Tree(fs) && dir in fs && q in Subtree(fs, dir)
    requires forall p :: (p == dir || p in Subtree(fs, dir)) && env.listing(p) == Silent ==> Subtree(fs, p) == {}
    ensures !Hidden(env, dir, q)
  {
    forall k | |dir| <= k < |q| ensures env.listing(q[..k]) != Silent { OnTheWay(fs, dir, q, k); }
  }

  lemma OnTheWay(fs: map<Path, Node>, dir: Path, q: Path, k: nat)
    requires Tree(fs) && dir in fs && q in Subtree(fs, dir) && |dir| <= k < |q|
    ensures (q[..k] == dir || q[..k] in Subtree(fs, dir)) && q in Subtree(fs, q[..k])
  {
    AncestorsIn(fs, q, k);
    assert q[..k][..|dir|] == q[..|dir|] == dir;
  }

  lemma ReplayNothing(s: Site, env: Env, opt: Options)
    ensures Replay(s, [], env, opt) == s
  {}

  lemma ReplayOne(s: Site, log: seq<Path>, p: Path, env: Env, opt: Options)
    ensures Replay(s, log + [p], env, opt) == Visit(Replay(s, log, env, opt), p, env, opt)
  {
    assert (log + [p])[..|log|] == log;
  }

  lemma NameListed(fs: map<Path, Node>, dir: Path, names: seq<string>, i: nat)
    requires Listing(fs, dir, names) && i < |names|
    ensures Dot(names[i]) || dir + [names[i]] in fs
  {}

  lemma CoveredInside(fs: map<Path, Node>, env: Env, dir: Path, names: seq<string>, i: nat)
    requires i <= |names|
    ensures Covered(fs, env, dir, names, i) <= Seen(fs, env, dir)
  {}

  lemma BelowBelow(dir: Path, p: Path)
    requires Below(dir, p)
    ensures forall q :: Below(p, q) ==> Below(dir, q)
  {
    forall q | Below(p, q) ensures Below(dir, q) { assert q[..|p|][..|dir|] == p[..|dir|]; }
  }

  lemma SubtreeSmaller(fs: map<Path, Node>, dir: Path, p: Path)
    requires p in fs && Below(dir, p)
    ensures Subtree(fs, p) < Subtree(fs, dir)
  {
    BelowBelow(dir, p);
    assert p in Subtree(fs, dir) && p !in Subtree(fs, p);
  }

  lemma FileAlone(fs: map<Path, Node>, p: Path)
    requires Tree(fs) && p in fs && fs[p].File?
    ensures Subtree(fs, p) == {}
  {
    forall q | q in fs ensures !Below(p, q) {
      if Below(p, q) { AncestorsIn(fs, q, |p|); }
    }
  }
}
