/**
 What a run of the crash report mover keeps, whatever fails and in whatever order the entries are visited:
 statements about all lists of visits, which is all that Move does to device and host before extraction.
 */
module CrashReportRuns {
  import opened Bytes
  import opened CrashReportMovers

  predicate IsFile(fs: map<Path, Node>, p: Path) { p in fs && fs[p].File? }

  /** A file that has a name left on the host once ".synced" is trimmed. */
  predicate Copyable(fs: map<Path, Node>, p: Path) { IsFile(fs, p) && Creatable(HostName(p)) }

  // ---------------------------------------------------------------------------------------------
  // Names
  // ---------------------------------------------------------------------------------------------

  ghost predicate IsWith(name: string, stem: string, suffix: string) { name == stem + suffix }

  /** Where a device file is copied to, which copies are property lists, and where their descriptions go. */
  lemma HostNames(dir: Path, name: string)
    ensures HostName(dir + [name + ".synced"]) == dir + [name]
    ensures (forall stem :: !IsWith(name, stem, ".synced")) ==> HostName(dir + [name]) == dir + [name]
    ensures IsPlist(dir + [name]) <==> exists stem :: IsWith(name, stem, ".plist")
    ensures CrashName(dir + [name + ".plist"]) == dir + [name + ".crash"]
    ensures Creatable(dir + [name]) <==> name != ""
  {
    LastName(dir, name);
    LastName(dir, name + ".synced");
    LastName(dir, name + ".plist");
    SuffixIff(name, ".synced");
    SuffixIff(name, ".plist");
    Trims(name, ".synced");
    Trims(name, ".plist");
    hide TrimSuffix, HasSuffix, IsWith;
  }

  lemma LastName(dir: Path, name: string)
    ensures var p := dir + [name]; |p| > 0 && p[|p|-1] == name && p[..|p|-1] == dir
  {}

  lemma SuffixIff(name: string, suffix: string)
    ensures HasSuffix(name, suffix) <==> exists stem :: IsWith(name, stem, suffix)
    ensures !HasSuffix(name, suffix) ==> TrimSuffix(name, suffix) == name
  {
    if HasSuffix(name, suffix) {
      assert IsWith(name, name[..|name| - |suffix|], suffix);
    }
    if stem :| IsWith(name, stem, suffix) { assert name[|stem|..] == suffix; }
  }

  lemma Trims(stem: string, suffix: string)
    ensures TrimSuffix(stem + suffix, suffix) == stem
  {
    assert (stem + suffix)[|stem|..] == suffix && (stem + suffix)[..|stem|] == stem;
  }

  // ---------------------------------------------------------------------------------------------
  // What leaves the device
  // ---------------------------------------------------------------------------------------------

  /** The copy is taken for finished. */
  predicate Finishes(fate: Fate) { fate.Smooth? || fate.CutShort? }

  lemma VisitRemoves(now: Site, p: Path, env: Env, opt: Options, q: Path)
    requires q in now.device
    ensures q !in Visit(now, p, env, opt).device
       <==> p == q && now.device[q].File? && !opt.keep && Finishes(env.fate(q)) && Creatable(HostName(q))
    ensures q in Visit(now, p, env, opt).device ==> Visit(now, p, env, opt).device[q] == now.device[q]
  {
    hide HostName, Creatable, IsPlist;
  }

  /** A file is gone if and only if it was visited, its copy to a file taken for finished, and was not to be kept. */
  lemma {:induction false} RemovedIff(s: Site, log: seq<Path>, env: Env, opt: Options, q: Path)
    requires IsFile(s.device, q)
    ensures q !in Replay(s, log, env, opt).device
       <==> !opt.keep && q in log && Finishes(env.fate(q)) && Creatable(HostName(q))
    decreases |log|
  {
    hide HostName, Creatable, Visit;
    if log != [] {
      var before, p := log[..|log|-1], log[|log|-1];
      var now := Replay(s, before, env, opt);
      RemovedIff(s, before, env, opt, q);
      ReplayDevice(s, before, env, opt);
      ReplayDevice(s, log, env, opt);
      assert log == before + [p];
      if q in now.device { VisitRemoves(now, p, env, opt, q); } else { VisitAddsNone(now, p, env, opt, q); }
    }
  }

  lemma VisitAddsNone(now: Site, p: Path, env: Env, opt: Options, q: Path)
    requires q !in now.device
    ensures q !in Visit(now, p, env, opt).device
  {
    hide HostName, Creatable, IsPlist;
  }

  // ---------------------------------------------------------------------------------------------
  // What the host holds
  // ---------------------------------------------------------------------------------------------

  /** The visit of p gets as far as creating the host file h. */
  predicate Creates(fs: map<Path, Node>, env: Env, p: Path, h: Path) {
    Copyable(fs, p) && HostName(p) == h && env.fate(p) !in {OpenFails, MkdirFails, CreateFails}
  }

  /** What it leaves there: as much of the file as its copy got to. */
  function CopyOf(fs: map<Path, Node>, env: Env, p: Path): seq<byte>
    requires IsFile(fs, p)
  {
    var content := fs[p].content;
    match env.fate(p)
    case CopyFails(n) => if n <= |content| then content[..n] else content
    case CutShort(n) => if n <= |content| then content[..n] else content
    case _ => content
  }

  ghost predicate LastCreates(fs: map<Path, Node>, log: seq<Path>, env: Env, i: nat, h: Path) {
    i < |log| && Creates(fs, env, log[i], h) && forall j :: i < j < |log| ==> !Creates(fs, env, log[j], h)
  }

  lemma VisitHost(now: Site, p: Path, env: Env, opt: Options, h: Path)
    ensures var after := Visit(now, p, env, opt);
            if Creates(now.device, env, p, h)
            then h in after.host && after.host[h] == CopyOf(now.device, env, p)
            else (h in after.host <==> h in now.host) && (h in now.host ==> after.host[h] == now.host[h])
  {
    hide HostName, Creatable, IsPlist;
  }

  /**
   After any walk, whatever fails and whatever is kept, a host file holds what the last visit that got as far as
   creating it left there, and is what it was if there is none.
   */
  lemma {:induction false} HostHolds(s: Site, log: seq<Path>, env: Env, opt: Options, h: Path)
    requires NoRepeats(log)
    ensures var after := Replay(s, log, env, opt);
            (forall i: nat :: LastCreates(s.device, log, env, i, h) ==>
               h in after.host && after.host[h] == CopyOf(s.device, env, log[i]))
            && ((forall p :: p in log ==> !Creates(s.device, env, p, h)) ==>
                  (h in after.host <==> h in s.host) && (h in s.host ==> after.host[h] == s.host[h]))
    decreases |log|
  {
    hide HostName, Creatable, CopyOf, Visit, Creates, LastCreates;
    if log == [] {
      NoneCreates(s.device, env, h);
    } else {
      var before, p := log[..|log|-1], log[|log|-1];
      assert log == before + [p] && p !in before;
      HostHolds(s, before, env, opt, h);
      ReplayDevice(s, before, env, opt);
      var now := Replay(s, before, env, opt);
      VisitHost(now, p, env, opt, h);
      SameVisit(s, now, env, p, h);
      LastCreatesStep(s.device, before, env, p, h);
      var after := Replay(s, log, env, opt);
      forall i: nat | LastCreates(s.device, log, env, i, h)
        ensures i < |log| && IsFile(s.device, log[i]) && h in after.host
        ensures after.host[h] == CopyOf(s.device, env, log[i])
      {
        assert IsFile(s.device, log[i]) by { CreatesFile(s.device, env, log[i], h); }
        if i < |before| { assert log[i] == before[i] && LastCreates(s.device, before, env, i, h); }
      }
    }
  }

  lemma CreatesFile(fs: map<Path, Node>, env: Env, p: Path, h: Path)
    requires Creates(fs, env, p, h)
    ensures IsFile(fs, p)
  {}

  lemma NoneCreates(fs: map<Path, Node>, env: Env, h: Path)
    ensures forall i: nat :: !LastCreates(fs, [], env, i, h)
  {}

  lemma LastCreatesStep(fs: map<Path, Node>, before: seq<Path>, env: Env, p: Path, h: Path)
    ensures forall i: nat :: LastCreates(fs, before + [p], env, i, h) ==>
              i <= |before| && Creates(fs, env, (before + [p])[i], h)
              && if Creates(fs, env, p, h) then i == |before| else i < |before| && LastCreates(fs, before, env, i, h)
  {
    hide Creates;
    var log := before + [p];
    assert log[|before|] == p && forall j :: 0 <= j < |before| ==> log[j] == before[j];
  }

  /** A file not visited before is what it was. */
  lemma SameVisit(s: Site, now: Site, env: Env, p: Path, h: Path)
    requires p in now.device <==> p in s.device
    requires p in now.device ==> now.device[p] == s.device[p]
    ensures Creates(now.device, env, p, h) <==> Creates(s.device, env, p, h)
    ensures IsFile(s.device, p) ==> CopyOf(now.device, env, p) == CopyOf(s.device, env, p)
  {
    hide HostName, Creatable;
  }

  // ---------------------------------------------------------------------------------------------
  // Nothing is lost, however a run goes
  // ---------------------------------------------------------------------------------------------

  /** Where the content of a file of the device is found after the visits. */
  ghost predicate Somewhere(s: Site, after: Site, q: Path)
    requires IsFile(s.device, q)
  {
    q in after.device || (HostName(q) in after.host && after.host[HostName(q)] == s.device[q].content)
  }

  ghost predicate Lossless(s: Site, after: Site) {
    forall q :: IsFile(s.device, q) ==> Somewhere(s, after, q)
  }

  /** Visited files are copied to different host files, unless they are all empty. */
  ghost predicate Harmless(fs: map<Path, Node>, log: seq<Path>) {
    forall p, q :: p in log && q in log && Clash(fs, p, q) ==> fs[p].content == [] && fs[q].content == []
  }

  /** The copy of p is taken for finished before it is. */
  predicate Cut(fs: map<Path, Node>, env: Env, p: Path) {
    Copyable(fs, p) && env.fate(p).CutShort? && env.fate(p).n < |fs[p].content|
  }

  ghost predicate NoneCut(fs: map<Path, Node>, log: seq<Path>, env: Env) {
    forall p :: p in log ==> !Cut(fs, env, p)
  }

  predicate Clash(fs: map<Path, Node>, p: Path, q: Path) {
    p != q && Copyable(fs, p) && Copyable(fs, q) && HostName(p) == HostName(q)
  }

  /** One visit leaves every content somewhere. */
  lemma VisitLossless(s: Site, now: Site, p: Path, env: Env, opt: Options, q: Path)
    requires IsFile(s.device, q) && Somewhere(s, now, q) && !Cut(s.device, env, p)
    requires p in now.device ==> p in s.device && now.device[p] == s.device[p]
    requires Clash(s.device, p, q) && q !in now.device ==> s.device[p].content == [] && s.device[q].content == []
    ensures Somewhere(s, Visit(now, p, env, opt), q)
  {
    hide HostName, Creatable, IsPlist;
  }

  lemma {:induction false} HarmlessLossless(s: Site, log: seq<Path>, env: Env, opt: Options)
    requires Harmless(s.device, log) && NoneCut(s.device, log, env)
    ensures Lossless(s, Replay(s, log, env, opt))
    decreases |log|
  {
    if log != [] {
      var before, p := log[..|log|-1], log[|log|-1];
      HarmlessLossless(s, before, env, opt);
      ReplayDevice(s, before, env, opt);
      var now := Replay(s, before, env, opt);
      forall q | IsFile(s.device, q) ensures Somewhere(s, Replay(s, log, env, opt), q) {
        RemovedIff(s, before, env, opt, q);
        assert q in before ==> q in log;
        VisitLossless(s, now, p, env, opt, q);
      }
    }
  }

  /** Visits of files that cannot be opened change neither device nor host. */
  lemma {:induction false} UnopenedKeep(s: Site, log: seq<Path>, env: Env, opt: Options)
    requires forall p :: p in log ==> env.fate(p) == OpenFails
    ensures Replay(s, log, env, opt).device == s.device && Replay(s, log, env, opt).host == s.host
    decreases |log|
  {
    if log != [] {
      UnopenedKeep(s, log[..|log|-1], env, opt);
      hide HostName, Creatable, IsPlist;
    }
  }

  /** The run that loses a file: it is copied and removed, and then another one is copied over it. */
  function Adverse(p: Path, q: Path, fs: map<Path, Node>): Env
    requires IsFile(fs, p)
  {
    Env(r => if r == p then Smooth
             else if r == q then if fs[p].content == [] then Smooth else CopyFails(0)
             else OpenFails,
        r => Names, r => false, content => NoDescription, n => ReadFails)
  }

  /** The visit that overwrites: what p held is then nowhere. */
  lemma Overwrites(s: Site, now: Site, p: Path, q: Path, opt: Options)
    requires Clash(s.device, p, q) && (s.device[p].content != [] || s.device[q].content != [])
    requires p !in now.device && q in now.device && now.device[q] == s.device[q]
    ensures !Somewhere(s, Visit(now, q, Adverse(p, q, s.device), opt), p)
  {
    hide HostName, Creatable, IsPlist;
  }

  lemma ClashLoses(s: Site, log: seq<Path>, i: nat, j: nat, extract: bool)
    requires NoRepeats(log) && i < j < |log| && Clash(s.device, log[i], log[j])
    requires s.device[log[i]].content != [] || s.device[log[j]].content != []
    ensures !Lossless(s, Replay(s, log, Adverse(log[i], log[j], s.device), Options(false, extract)))
  {
    var p, q, opt := log[i], log[j], Options(false, extract);
    var env := Adverse(p, q, s.device);
    var a, b := log[..j], log[j+1..];
    assert log == (a + [q]) + b;
    assert a[i] == p && q !in a && forall r :: r in b ==> r != p && r != q;
    hide HostName, Creatable, IsPlist, Visit, Replay;
    var now := Replay(s, a, env, opt);
    var later := Replay(s, a + [q], env, opt);
    RemovedIff(s, a, env, opt, p);
    RemovedIff(s, a, env, opt, q);
    ReplayDevice(s, a, env, opt);
    ReplayOne(s, a, q, env, opt);
    Overwrites(s, now, p, q, opt);
    UnopenedKeep(later, b, env, opt);
    ReplayAppend(s, a + [q], b, env, opt);
    assert !Somewhere(s, Replay(s, log, env, opt), p);
  }

  /**
   Whatever fails, as long as it is noticed, nothing is lost: true if and only if no two visited files clash on the
   host, unless both are empty.
   */
  lemma LosslessIff(s: Site, log: seq<Path>, extract: bool)
    requires NoRepeats(log)
    ensures (forall env: Env :: NoneCut(s.device, log, env) ==>
               Lossless(s, Replay(s, log, env, Options(false, extract))))
       <==> Harmless(s.device, log)
  {
    hide Harmless, Lossless, NoneCut, Replay;
    if Harmless(s.device, log) {
      forall env: Env | NoneCut(s.device, log, env) ensures Lossless(s, Replay(s, log, env, Options(false, extract))) {
        HarmlessLossless(s, log, env, Options(false, extract));
      }
    } else {
      var env := HarmDone(s, log, extract);
    }
  }

  lemma HarmDone(s: Site, log: seq<Path>, extract: bool) returns (env: Env)
    requires NoRepeats(log) && !Harmless(s.device, log)
    ensures NoneCut(s.device, log, env) && !Lossless(s, Replay(s, log, env, Options(false, extract)))
  {
    hide HostName, Creatable, Lossless, Replay, NoneCut;
    var p, q :| p in log && q in log && Clash(s.device, p, q)
                && (s.device[p].content != [] || s.device[q].content != []);
    var i :| 0 <= i < |log| && log[i] == p;
    var j :| 0 <= j < |log| && log[j] == q;
    if j < i { i, j := j, i; }
    env := Adverse(log[i], log[j], s.device);
    AdverseUncut(s.device, log, log[i], log[j]);
    ClashLoses(s, log, i, j, extract);
  }

  lemma AdverseUncut(fs: map<Path, Node>, log: seq<Path>, p: Path, q: Path)
    requires IsFile(fs, p)
    ensures NoneCut(fs, log, Adverse(p, q, fs))
  {
    hide HostName, Creatable;
  }

  /** One more visit leaves a short copy as it is. */
  lemma CutStaysOne(s: Site, now: Site, x: Path, env: Env, opt: Options, p: Path)
    requires Cut(s.device, env, p) && p !in now.device && !Clash(s.device, x, p)
    requires x in now.device ==> x in s.device && now.device[x] == s.device[x]
    ensures var after := Visit(now, x, env, opt);
            p !in after.device && (HostName(p) in now.host ==>
              HostName(p) in after.host && after.host[HostName(p)] == now.host[HostName(p)])
  {
    hide HostName, Creatable, IsPlist;
  }

  lemma CutOnce(now: Site, env: Env, opt: Options, p: Path)
    requires !opt.keep && Cut(now.device, env, p)
    ensures var after := Visit(now, p, env, opt);
            p !in after.device && HostName(p) in after.host
            && after.host[HostName(p)] == now.device[p].content[..env.fate(p).n]
  {
    hide HostName, Creatable, IsPlist;
  }

  lemma {:induction false} CutStays(s: Site, log: seq<Path>, env: Env, opt: Options, p: Path)
    requires !opt.keep && p in log && Cut(s.device, env, p) && forall x :: x in log ==> !Clash(s.device, x, p)
    ensures var after := Replay(s, log, env, opt);
            p !in after.device && HostName(p) in after.host
            && after.host[HostName(p)] == s.device[p].content[..env.fate(p).n]
    decreases |log|
  {
    hide HostName, Creatable, Visit;
    var before, x := log[..|log|-1], log[|log|-1];
    assert log == before + [x];
    var now := Replay(s, before, env, opt);
    ReplayDevice(s, before, env, opt);
    if p in before {
      CutStays(s, before, env, opt, p);
      CutStaysOne(s, now, x, env, opt, p);
    } else {
      CutOnce(now, env, opt, p);
    }
  }

  /** A copy cut short unnoticed loses the rest: where no names clash, that and nothing else loses anything. */
  lemma CutShortIff(s: Site, log: seq<Path>, env: Env, extract: bool)
    requires forall p, q :: p in log && q in log ==> !Clash(s.device, p, q)
    ensures Lossless(s, Replay(s, log, env, Options(false, extract))) <==> NoneCut(s.device, log, env)
  {
    var opt := Options(false, extract);
    if NoneCut(s.device, log, env) {
      assert Harmless(s.device, log) by { hide Clash; }
      HarmlessLossless(s, log, env, opt);
    } else {
      var p :| p in log && Cut(s.device, env, p);
      CutStays(s, log, env, opt, p);
      hide Replay, HostName;
      assert !Somewhere(s, Replay(s, log, env, opt), p);
    }
  }

  /** Such names exist: "a" and "a.synced" in one directory are copied to one host file. */
  lemma SyncedClashes(fs: map<Path, Node>, dir: Path, name: string)
    requires IsFile(fs, dir + [name]) && IsFile(fs, dir + [name + ".synced"]) && !HasSuffix(name, ".synced")
    ensures Clash(fs, dir + [name], dir + [name + ".synced"]) <==> name != ""
  {
    var p, q := dir + [name], dir + [name + ".synced"];
    assert p[..|p|-1] == dir && q[..|q|-1] == dir && p[|p|-1] == name && q[|q|-1] == name + ".synced";
    assert (name + ".synced")[|name|..] == ".synced";
    assert (name + ".synced")[..|name|] == name;
    assert |p[|p|-1]| != |q[|q|-1]|;
  }

  // ---------------------------------------------------------------------------------------------
  // A run in which nothing fails
  // ---------------------------------------------------------------------------------------------

  ghost predicate Uneventful(log: seq<Path>, env: Env) { forall p :: p in log ==> env.fate(p) == Smooth }

  /** Visited files that share a host file have the same content. */
  ghost predicate Agree(fs: map<Path, Node>, log: seq<Path>) {
    forall p, q :: p in log && q in log && Clash(fs, p, q) ==> fs[p].content == fs[q].content
  }

  ghost predicate Copied(s: Site, after: Site, log: seq<Path>) {
    forall q :: q in log && Copyable(s.device, q) ==>
      HostName(q) in after.host && after.host[HostName(q)] == s.device[q].content
  }

  /** The host file h is what it was, or the content of a visited file copied to it. */
  ghost predicate Explained(s: Site, after: Site, log: seq<Path>, h: Path)
    requires h in after.host
  {
    (h in s.host && after.host[h] == s.host[h])
    || exists q :: q in log && Copyable(s.device, q) && HostName(q) == h && s.device[q].content == after.host[h]
  }

  lemma VisitCopies(s: Site, now: Site, p: Path, env: Env, opt: Options, q: Path)
    requires env.fate(p) == Smooth && Copyable(s.device, q)
    requires p in now.device ==> p in s.device && now.device[p] == s.device[p]
    requires (p == q && q in now.device) || (HostName(q) in now.host && now.host[HostName(q)] == s.device[q].content)
    requires Clash(s.device, p, q) ==> s.device[p].content == s.device[q].content
    ensures var after := Visit(now, p, env, opt);
            HostName(q) in after.host && after.host[HostName(q)] == s.device[q].content
  {
    hide HostName, Creatable, IsPlist;
  }

  lemma {:induction false} AgreeCopied(s: Site, log: seq<Path>, env: Env, opt: Options)
    requires Uneventful(log, env) && Agree(s.device, log)
    ensures Copied(s, Replay(s, log, env, opt), log)
    decreases |log|
  {
    if log != [] {
      var before, p := log[..|log|-1], log[|log|-1];
      assert log == before + [p];
      AgreeCopied(s, before, env, opt);
      ReplayDevice(s, before, env, opt);
      var now := Replay(s, before, env, opt);
      forall q | q in log && Copyable(s.device, q)
        ensures HostName(q) in Replay(s, log, env, opt).host
        ensures Replay(s, log, env, opt).host[HostName(q)] == s.device[q].content
      {
        RemovedIff(s, before, env, opt, q);
        hide HostName, Creatable, IsPlist;
        VisitCopies(s, now, p, env, opt, q);
      }
    }
  }

  lemma VisitExplains(now: Site, p: Path, env: Env, opt: Options, h: Path)
    requires env.fate(p) == Smooth && h in Visit(now, p, env, opt).host
    ensures var after := Visit(now, p, env, opt);
            (h in now.host && after.host[h] == now.host[h])
            || (Copyable(now.device, p) && HostName(p) == h && now.device[p].content == after.host[h])
  {
    hide HostName, Creatable, IsPlist;
  }

  lemma {:induction false} NothingElseOnHost(s: Site, log: seq<Path>, env: Env, opt: Options, h: Path)
    requires Uneventful(log, env) && h in Replay(s, log, env, opt).host
    ensures Explained(s, Replay(s, log, env, opt), log, h)
    decreases |log|
  {
    if log != [] {
      var before, p := log[..|log|-1], log[|log|-1];
      assert log == before + [p];
      var now := Replay(s, before, env, opt);
      ReplayDevice(s, before, env, opt);
      hide HostName, Creatable, Visit;
      VisitExplains(now, p, env, opt, h);
      if h in now.host && Replay(s, log, env, opt).host[h] == now.host[h] { NothingElseOnHost(s, before, env, opt, h); }
    }
  }

  /** What is left of a tree by a walk in which nothing fails, and its directories. */
  function Left(fs: map<Path, Node>, log: seq<Path>): map<Path, Node> {
    map q | q in fs && !(q in log && Copyable(fs, q)) :: fs[q]
  }

  function Directories(fs: map<Path, Node>): map<Path, Node> { map q | q in fs && fs[q].Dir? :: fs[q] }

  /**
   When nothing fails: with `keep` the device is as it was, without it the visited files that can be copied are gone and
   nothing else is; either way the host has gained no other content, and it holds the content of all of them if and
   only if those that share a host file have the same content.
   */
  lemma UneventfulRun(s: Site, log: seq<Path>, env: Env, opt: Options)
    requires Uneventful(log, env)
    ensures var after := Replay(s, log, env, opt);
            after.device == (if opt.keep then s.device else Left(s.device, log))
            && (Copied(s, after, log) <==> Agree(s.device, log))
            && (forall h :: h in after.host ==> Explained(s, after, log, h))
  {
    var after := Replay(s, log, env, opt);
    hide Replay, HostName, Creatable;
    ReplayDevice(s, log, env, opt);
    forall q | IsFile(s.device, q) ensures q !in after.device <==> !opt.keep && q in log && Copyable(s.device, q) {
      RemovedIff(s, log, env, opt, q);
    }
    if Agree(s.device, log) { AgreeCopied(s, log, env, opt); }
    forall h | h in after.host ensures Explained(s, after, log, h) { NothingElseOnHost(s, log, env, opt, h); }
  }

  ghost predicate AllCopyable(fs: map<Path, Node>) { forall q :: IsFile(fs, q) ==> Copyable(fs, q) }

  lemma LeftDirectories(fs: map<Path, Node>, log: seq<Path>)
    requires forall q :: IsFile(fs, q) ==> q in log
    ensures Left(fs, log) == Directories(fs) <==> AllCopyable(fs)
  {
    hide HostName, Creatable;
    if q :| IsFile(fs, q) && !Copyable(fs, q) { assert q in Left(fs, log) && q !in Directories(fs); }
  }

  /** A whole walk in which nothing fails leaves all directories and no file, unless one is called ".synced". */
  lemma OnlyDirectoriesLeft(s: Site, log: seq<Path>, env: Env, opt: Options)
    requires Tree(s.device) && !opt.keep && Uneventful(log, env)
    requires forall q :: q in Subtree(s.device, []) ==> q in log
    ensures Replay(s, log, env, opt).device == Directories(s.device) <==> AllCopyable(s.device)
  {
    forall q | IsFile(s.device, q) ensures q in log { FileInTree(s.device, q); }
    UneventfulRun(s, log, env, opt);
    hide *;
    LeftDirectories(s.device, log);
  }

  /** The one name in question. */
  lemma SyncedAlone(fs: map<Path, Node>, dir: Path, name: string)
    requires IsFile(fs, dir + [name])
    ensures Copyable(fs, dir + [name]) <==> name != "" && name != ".synced"
  {
    assert (dir + [name])[..|dir|] == dir;
    if HasSuffix(name, ".synced") && |name| == 7 { assert name == name[0..]; }
  }

  lemma FileInTree(fs: map<Path, Node>, q: Path)
    requires Tree(fs) && IsFile(fs, q)
    ensures q in Subtree(fs, [])
  {
    assert q != [] && q[..0] == [];
  }

  // ---------------------------------------------------------------------------------------------
  // Extraction
  // ---------------------------------------------------------------------------------------------

  /** The names to extract are the host names of visited property lists, in the order of the visits. */
  function PlistsOf(fs: map<Path, Node>, log: seq<Path>): seq<Path> {
    if log == [] then []
    else
      var p := log[|log|-1];
      PlistsOf(fs, log[..|log|-1]) + if IsFile(fs, p) && IsPlist(HostName(p)) then [HostName(p)] else []
  }

  lemma VisitExtracts(now: Site, p: Path, env: Env, opt: Options)
    ensures Visit(now, p, env, opt).toExtract
         == now.toExtract + if opt.extract && IsFile(now.device, p) && IsPlist(HostName(p)) then [HostName(p)] else []
  {
    hide HostName, Creatable, IsPlist;
  }

  lemma {:induction false} ExtractsPlists(s: Site, log: seq<Path>, env: Env, opt: Options)
    requires NoRepeats(log)
    ensures Replay(s, log, env, opt).toExtract
         == s.toExtract + if opt.extract then PlistsOf(s.device, log) else []
    decreases |log|
  {
    if log != [] {
      var before, p := log[..|log|-1], log[|log|-1];
      ExtractsPlists(s, before, env, opt);
      ReplayDevice(s, before, env, opt);
      assert p !in before;
      VisitExtracts(Replay(s, before, env, opt), p, env, opt);
      hide HostName, Creatable, IsPlist, Visit;
    }
  }

  lemma PlistCreatable(h: Path)
    requires IsPlist(h)
    ensures Creatable(h)
  {}

  /** These are the visited property lists, and all of them. */
  lemma {:induction false} PlistsVisited(fs: map<Path, Node>, log: seq<Path>)
    ensures forall h :: h in PlistsOf(fs, log) ==>
              IsPlist(h) && exists p :: p in log && Copyable(fs, p) && HostName(p) == h
    ensures forall p :: p in log && IsFile(fs, p) && IsPlist(HostName(p)) ==> HostName(p) in PlistsOf(fs, log)
    decreases |log|
  {
    if log != [] {
      var before, p := log[..|log|-1], log[|log|-1];
      assert log == before + [p];
      PlistsVisited(fs, before);
      if IsPlist(HostName(p)) { PlistCreatable(HostName(p)); }
      hide HostName, Creatable, IsPlist;
    }
  }

  lemma CrashNamesApart(a: Path, b: Path)
    requires IsPlist(a) && IsPlist(b) && CrashName(a) == CrashName(b)
    ensures a == b
  {
    PlistOfCrash(a);
    PlistOfCrash(b);
  }

  /** The list a ".crash" name was made of. */
  function FromCrash(c: Path): Path
    requires c != [] && |c[|c|-1]| >= 6
  {
    c[..|c|-1] + [c[|c|-1][..|c[|c|-1]|-6] + ".plist"]
  }

  lemma PlistOfCrash(a: Path)
    requires IsPlist(a)
    ensures var c := CrashName(a); c != [] && |c[|c|-1]| >= 6 && FromCrash(c) == a
  {
    var x, c := a[|a|-1], CrashName(a);
    var stem := x[..|x|-6];
    assert c[|c|-1] == stem + ".crash" && c[..|c|-1] == a[..|a|-1];
    assert (stem + ".crash")[..|stem|] == stem && x == stem + ".plist";
  }

  /** A ".crash" name is no ".plist" name, so no extraction touches a list still to be read. */
  lemma CrashIsNoPlist(a: Path)
    requires IsPlist(a)
    ensures !IsPlist(CrashName(a))
  {
    var stem := a[|a|-1][..|a[|a|-1]|-6];
    var name := CrashName(a)[|a|-1];
    assert name == stem + ".crash" && |CrashName(a)| == |a|;
    assert name[|name|-1] == 'h';
    assert name[|name|-6..][5] != ".plist"[5];
  }

  /** The i-th extraction writes to the host file c. */
  predicate Saves(host: map<Path, seq<byte>>, names: seq<Path>, env: Env, i: nat, c: Path)
    requires i < |names|
  {
    CrashName(names[i]) == c && names[i] in host && env.description(host[names[i]]).Description?
    && (env.extraction(i).WriteBreaks? || env.extraction(i) == Saved)
  }

  ghost predicate LastSaves(host: map<Path, seq<byte>>, names: seq<Path>, env: Env, i: nat, c: Path) {
    i < |names| && Saves(host, names, env, i, c) && forall j :: i < j < |names| ==> !Saves(host, names, env, j, c)
  }

  /** As much of a description as its write got to. */
  function Part(text: seq<byte>, x: Extraction): seq<byte> {
    if x.WriteBreaks? && x.n <= |text| then text[..x.n] else text
  }

  lemma ExtractWrites(host: map<Path, seq<byte>>, now: map<Path, seq<byte>>, names: seq<Path>, env: Env, i: nat,
                      c: Path)
    requires i < |names| && (names[i] in now <==> names[i] in host)
    requires names[i] in host ==> now[names[i]] == host[names[i]]
    ensures var after := Extract(now, names[i], env, env.extraction(i));
            if Saves(host, names, env, i, c)
            then c in after && after[c] == Part(env.description(host[names[i]]).text, env.extraction(i))
            else (c in after <==> c in now) && (c in now ==> after[c] == now[c])
  {
    hide CrashName;
  }

  /** The host file c holds what the last extraction that wrote to it left there, and is what it was if none did. */
  ghost predicate Leaves(host: map<Path, seq<byte>>, names: seq<Path>, env: Env, c: Path,
                         after: map<Path, seq<byte>>)
  {
    (forall i: nat :: LastSaves(host, names, env, i, c) ==>
       c in after && after[c] == Part(env.description(host[names[i]]).text, env.extraction(i)))
    && ((forall i: nat :: i < |names| ==> !Saves(host, names, env, i, c)) ==>
          (c in after <==> c in host) && (c in host ==> after[c] == host[c]))
  }

  /**
   After the extractions, however far each of them gets, a host file holds what the last one that wrote to it left
   there: the description the list held before any of them. It is what it was if there is none.
   */
  lemma {:induction false} ExtractionLeaves(host: map<Path, seq<byte>>, names: seq<Path>, env: Env, c: Path)
    requires forall name :: name in names ==> IsPlist(name)
    ensures Leaves(host, names, env, c, Extracted(host, names, env))
    decreases |names|
  {
    if names != [] {
      var n := |names| - 1;
      var before, last := names[..n], names[n];
      assert names == before + [last];
      hide Leaves, Extract, IsPlist;
      ExtractionLeaves(host, before, env, last);
      ExtractionLeaves(host, before, env, c);
      LeavesStep(host, before, last, env, c, Extracted(host, before, env));
    }
  }

  lemma LeavesStep(host: map<Path, seq<byte>>, before: seq<Path>, last: Path, env: Env, c: Path,
                   now: map<Path, seq<byte>>)
    requires IsPlist(last) && forall name :: name in before ==> IsPlist(name)
    requires Leaves(host, before, env, c, now) && Leaves(host, before, env, last, now)
    ensures Leaves(host, before + [last], env, c, Extract(now, last, env, env.extraction(|before|)))
  {
    hide CrashName, IsPlist, Extract, Part, Saves, LastSaves;
    var names := before + [last];
    NoListSaved(host, before, env, last);
    NoneLast(host, before, env, last);
    ExtractWrites(host, now, names, env, |before|, c);
    SavesBefore(host, before, last, env, c);
  }

  lemma NoneLast(host: map<Path, seq<byte>>, names: seq<Path>, env: Env, c: Path)
    ensures (forall i: nat :: i < |names| ==> !Saves(host, names, env, i, c)) ==>
              forall i: nat :: !LastSaves(host, names, env, i, c)
  {
    hide Saves;
  }

  lemma NoListSaved(host: map<Path, seq<byte>>, names: seq<Path>, env: Env, list: Path)
    requires IsPlist(list) && forall name :: name in names ==> IsPlist(name)
    ensures forall i: nat :: i < |names| ==> !Saves(host, names, env, i, list)
  {
    forall i: nat | i < |names| ensures !Saves(host, names, env, i, list) { CrashIsNoPlist(names[i]); }
    hide CrashName, IsPlist;
  }

  lemma SavesBefore(host: map<Path, seq<byte>>, before: seq<Path>, last: Path, env: Env, c: Path)
    ensures var names := before + [last];
            (forall i: nat :: i < |before| ==> (Saves(host, names, env, i, c) <==> Saves(host, before, env, i, c)))
            && forall i: nat :: LastSaves(host, names, env, i, c) ==>
                 i <= |before| && Saves(host, names, env, i, c)
                 && if i < |before| then names[i] == before[i] && LastSaves(host, before, env, i, c)
                                         && !Saves(host, names, env, |before|, c)
                    else i == |before|
  {
    hide CrashName;
    var names := before + [last];
    assert forall i: nat :: i < |before| ==> names[i] == before[i];
    assert forall i: nat :: i < |before| ==> (Saves(host, names, env, i, c) <==> Saves(host, before, env, i, c));
    hide Saves;
  }

  /** Some extraction that writes to c is the last. */
  lemma {:induction false} LastSaved(host: map<Path, seq<byte>>, names: seq<Path>, env: Env, i: nat, c: Path)
      returns (last: nat)
    requires i < |names| && Saves(host, names, env, i, c)
    ensures LastSaves(host, names, env, last, c)
    decreases |names| - i
  {
    hide Saves;
    if j :| i < j < |names| && Saves(host, names, env, j, c) {
      last := LastSaved(host, names, env, j, c);
    } else {
      last := i;
    }
  }

  /** When nothing fails, each property list with a description has it saved beside it. */
  lemma DescriptionsSaved(host: map<Path, seq<byte>>, names: seq<Path>, env: Env, h: Path)
    requires h in names && forall name :: name in names ==> IsPlist(name)
    requires forall n :: env.extraction(n) == Saved
    requires h in host && env.description(host[h]).Description?
    ensures var after := Extracted(host, names, env);
            CrashName(h) in after && after[CrashName(h)] == env.description(host[h]).text
  {
    var i :| 0 <= i < |names| && names[i] == h;
    var last := LastSaved(host, names, env, i, CrashName(h));
    CrashNamesApart(h, names[last]);
    ExtractionLeaves(host, names, env, CrashName(h));
  }

  // ---------------------------------------------------------------------------------------------
  // A whole move in which nothing fails
  // ---------------------------------------------------------------------------------------------

  ghost predicate AllSaved(env: Env) { forall n :: env.extraction(n) == Saved }

  /** The description of p is saved to the host file q is copied to. */
  predicate Shadows(fs: map<Path, Node>, p: Path, q: Path) {
    Copyable(fs, p) && Copyable(fs, q) && IsPlist(HostName(p)) && CrashName(HostName(p)) == HostName(q)
  }

  /** It says there what q says, if it says anything. */
  predicate Echoes(fs: map<Path, Node>, env: Env, p: Path, q: Path)
    requires IsFile(fs, p) && IsFile(fs, q)
  {
    env.description(fs[p].content) in {NoDescription, Description(fs[q].content)}
  }

  ghost predicate AllEcho(fs: map<Path, Node>, log: seq<Path>, env: Env) {
    forall p, q :: p in log && q in log && Shadows(fs, p, q) ==> Echoes(fs, env, p, q)
  }

  lemma CopiedAgree(s: Site, after: Site, log: seq<Path>)
    requires Copied(s, after, log)
    ensures Agree(s.device, log)
  {
    hide HostName, Creatable;
  }

  /**
   Files in place before the extraction are in place after it, if and only if what was written over them
   echoes them.
   */
  lemma ExtractionCopies(s: Site, walked: Site, log: seq<Path>, env: Env)
    requires Copied(s, walked, log) && AllSaved(env) && walked.toExtract == PlistsOf(s.device, log)
    ensures Copied(s, walked.(host := Extracted(walked.host, walked.toExtract, env)), log)
       <==> AllEcho(s.device, log, env)
  {
    hide HostName, Creatable, IsPlist, CrashName, PlistsOf;
    var names, host := walked.toExtract, walked.host;
    var after := walked.(host := Extracted(host, names, env));
    PlistsVisited(s.device, log);
    forall p, q | p in log && q in log && Shadows(s.device, p, q) && env.description(s.device[p].content).Description?
      ensures HostName(q) in after.host && after.host[HostName(q)] == env.description(s.device[p].content).text
    {
      DescriptionsSaved(host, names, env, HostName(p));
    }
    if AllEcho(s.device, log, env) {
      forall q | q in log && Copyable(s.device, q)
        ensures HostName(q) in after.host && after.host[HostName(q)] == s.device[q].content
      {
        if p :| p in log && Shadows(s.device, p, q) && env.description(s.device[p].content).Description? {
          assert Echoes(s.device, env, p, q);
        } else {
          SilentFor(s, walked, log, env, q);
        }
      }
    } else {
      var p, q :| p in log && q in log && Shadows(s.device, p, q) && !Echoes(s.device, env, p, q);
      assert env.description(s.device[p].content).Description?;
    }
  }

  /** A file no description is saved over. */
  lemma SilentFor(s: Site, walked: Site, log: seq<Path>, env: Env, q: Path)
    requires q in log && Copyable(s.device, q)
    ensures var after := Extracted(walked.host, walked.toExtract, env);
            Copied(s, walked, log) && walked.toExtract == PlistsOf(s.device, log) && Unsaid(s.device, log, env, q) ==>
              HostName(q) in after && after[HostName(q)] == s.device[q].content
  {
    hide HostName, Creatable, IsPlist, CrashName, PlistsOf;
    PlistsVisited(s.device, log);
    if Copied(s, walked, log) && walked.toExtract == PlistsOf(s.device, log) && Unsaid(s.device, log, env, q) {
      forall name | name in walked.toExtract && name in walked.host && CrashName(name) == HostName(q)
        ensures env.description(walked.host[name]).NoDescription?
      {
        var p :| p in log && Copyable(s.device, p) && HostName(p) == name;
        assert Shadows(s.device, p, q);
      }
      ExtractionLeaves(walked.host, walked.toExtract, env, HostName(q));
    }
  }

  /** No list visited whose description goes over q has one. */
  ghost predicate Unsaid(fs: map<Path, Node>, log: seq<Path>, env: Env, q: Path) {
    forall p :: p in log && Shadows(fs, p, q) ==> env.description(fs[p].content).NoDescription?
  }

  /**
   A move in which nothing fails leaves the content of every file it copied on the host, if and only if files that
   share a host file agree and, when descriptions are extracted, each one saved over a copied file echoes it.
   */
  lemma MoveCopiedIff(s: Site, log: seq<Path>, env: Env, opt: Options)
    requires s.toExtract == [] && NoRepeats(log) && Uneventful(log, env) && AllSaved(env)
    ensures Copied(s, Moved(s, log, env, opt), log)
       <==> Agree(s.device, log) && (opt.extract ==> AllEcho(s.device, log, env))
  {
    hide Replay, Agree, AllEcho, Extracted, PlistsOf, HostName, Creatable;
    var walked := Replay(s, log, env, opt);
    UneventfulRun(s, log, env, opt);
    ExtractsPlists(s, log, env, opt);
    if Copied(s, Moved(s, log, env, opt), log) { CopiedAgree(s, Moved(s, log, env, opt), log); }
    if Agree(s.device, log) && opt.extract {
      assert walked.toExtract == PlistsOf(s.device, log);
      ExtractionCopies(s, walked, log, env);
    }
  }

  /** Where no description goes over a copied file it does not matter how far the extractions get. */
  lemma MoveWithoutLoss(s: Site, log: seq<Path>, env: Env, opt: Options)
    requires s.toExtract == [] && NoRepeats(log) && Uneventful(log, env) && Agree(s.device, log)
    requires forall p, q :: p in log && q in log ==> !Shadows(s.device, p, q)
    ensures Copied(s, Moved(s, log, env, opt), log)
  {
    var walked := Replay(s, log, env, opt);
    AgreeCopied(s, log, env, opt);
    ExtractsPlists(s, log, env, opt);
    hide HostName, IsPlist, CrashName, Creatable, Replay, PlistsOf;
    if opt.extract {
      assert walked.toExtract == PlistsOf(s.device, log);
      forall q | q in log && Copyable(s.device, q)
        ensures HostName(q) in Extracted(walked.host, walked.toExtract, env)
        ensures Extracted(walked.host, walked.toExtract, env)[HostName(q)] == s.device[q].content
      {
        SilentFor(s, walked, log, env, q);
      }
    }
  }

  /**
   Whatever the lists say and however far the extractions get: the copies of a walk in which nothing fails are on
   the host after the move if and only if files that share a host file agree and no list is visited whose
   description goes over a copied file.
   */
  lemma MoveLosslessIff(s: Site, log: seq<Path>, keep: bool)
    requires s.toExtract == [] && NoRepeats(log)
    ensures (forall env: Env :: Uneventful(log, env) ==>
               Copied(s, Moved(s, log, env, Options(keep, true)), log))
       <==> Agree(s.device, log) && forall p, q :: p in log && q in log ==> !Shadows(s.device, p, q)
  {
    hide Moved, Copied, HostName, Creatable, IsPlist, CrashName;
    var opt := Options(keep, true);
    if Agree(s.device, log) && forall p, q :: p in log && q in log ==> !Shadows(s.device, p, q) {
      forall env: Env | Uneventful(log, env) ensures Copied(s, Moved(s, log, env, opt), log) {
        MoveWithoutLoss(s, log, env, opt);
      }
    } else if !Agree(s.device, log) {
      MoveCopiedIff(s, log, Saying(NoDescription), opt);
      assert Uneventful(log, Saying(NoDescription)) && AllSaved(Saying(NoDescription));
    } else {
      var p, q :| p in log && q in log && Shadows(s.device, p, q);
      var env := Saying(Description(if s.device[q].content == [] then [0] else []));
      assert !Echoes(s.device, env, p, q);
      MoveCopiedIff(s, log, env, opt);
      assert Uneventful(log, env) && AllSaved(env);
    }
  }

  /** Nothing fails, and every list has the same description. */
  function Saying(d: DescriptionOf): Env { Env(p => Smooth, p => Names, p => false, content => d, n => Saved) }

  /** The pair in question: "x.plist" beside "x.crash". */
  lemma CrashShadowed(fs: map<Path, Node>, dir: Path, name: string)
    requires IsFile(fs, dir + [name + ".plist"]) && IsFile(fs, dir + [name + ".crash"])
    ensures Shadows(fs, dir + [name + ".plist"], dir + [name + ".crash"])
  {
    HostNameOf(dir, name + ".plist", 't');
    HostNameOf(dir, name + ".crash", 'h');
    var h := dir + [name + ".plist"];
    assert h[..|h|-1] == dir && h[|h|-1] == name + ".plist";
    assert (name + ".plist")[|name|..] == ".plist" && (name + ".plist")[..|name|] == name;
  }

  lemma HostNameOf(dir: Path, name: string, last: char)
    requires name != "" && name[|name|-1] == last != 'd'
    ensures HostName(dir + [name]) == dir + [name] && Creatable(dir + [name])
  {
    var p := dir + [name];
    assert p[..|p|-1] == dir && p[|p|-1] == name;
    if |name| >= 7 { assert name[|name|-7..][6] == last != ".synced"[6]; }
  }
}
