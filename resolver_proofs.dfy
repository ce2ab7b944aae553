/** What one resolution computes. Started as `createMakefile` starts it, the walk
    scans exactly the files reachable from the entry along kept includes, collects
    exactly their folder-relative names with the entry first and none twice, reads
    each of them once and never reads a `.h` file. */
module ResolverProofs {
  import opened Wrappers
  import opened Paths
  import opened FileSystem
  import opened IncludeLexer
  import opened Resolver

  /* ---------------- Reachability in the include graph. */

  ghost predicate IsWalk(disk: Disk, folder: string, w: seq<Path>)
  {
    |w| > 0 && forall i :: 0 <= i < |w| - 1 ==> w[i + 1] in Targets(disk, folder, w[i])
  }

  ghost predicate Reachable(disk: Disk, folder: string, root: Path, x: Path)
  {
    exists w :: IsWalk(disk, folder, w) && w[0] == root && w[|w| - 1] == x
  }

  lemma ReachableRoot(disk: Disk, folder: string, root: Path)
    ensures Reachable(disk, folder, root, root)
  {
    assert IsWalk(disk, folder, [root]);
  }

  lemma ReachableStep(disk: Disk, folder: string, root: Path, x: Path, t: Path)
    requires Reachable(disk, folder, root, x) && t in Targets(disk, folder, x)
    ensures Reachable(disk, folder, root, t)
  {
    var w :| IsWalk(disk, folder, w) && w[0] == root && w[|w| - 1] == x;
    var w' := w + [t];
    assert IsWalk(disk, folder, w');
  }

  /** A reachable path other than the root is the target of an include in some
      reachable file. */
  lemma ReachableLast(disk: Disk, folder: string, root: Path, x: Path) returns (y: Path)
    requires Reachable(disk, folder, root, x) && x != root
    ensures Reachable(disk, folder, root, y) && x in Targets(disk, folder, y)
  {
    var w :| IsWalk(disk, folder, w) && w[0] == root && w[|w| - 1] == x;
    y := w[|w| - 2];
    assert IsWalk(disk, folder, w[..|w| - 1]);
  }

  lemma InPrefix(a: seq<string>, b: seq<string>, y: string)
    requires a <= b && y in a
    ensures y in b
  {
    var i :| 0 <= i < |a| && a[i] == y;
    assert b[i] == y;
  }

  lemma TargetsOfCons(disk: Disk, folder: string, incs: seq<Include>)
    requires incs != []
    ensures TargetsOf(disk, folder, incs) ==
      (if IncludeTarget(disk, folder, incs[0]).Some? then {IncludeTarget(disk, folder, incs[0]).value} else {})
      + TargetsOf(disk, folder, incs[1..])
  {
  }

  /* ---------------- Closure: a finished file has all its targets scanned and collected. */

  ghost predicate Finished(disk: Disk, folder: string, st: ScanState, x: Path)
  {
    forall t :: t in Targets(disk, folder, x) ==> t in st.scanned && Relative(folder, t) in st.found
  }

  /** Every scanned file outside `active` (the calls still on the stack) is finished. */
  ghost predicate ClosedExcept(disk: Disk, folder: string, st: ScanState, active: set<Path>)
  {
    forall x {:trigger Finished(disk, folder, st, x)} :: x in st.scanned && x !in active ==> Finished(disk, folder, st, x)
  }

  lemma FinishedGrows(disk: Disk, folder: string, st: ScanState, st': ScanState, x: Path)
    requires Finished(disk, folder, st, x) && Grows(st, st')
    ensures Finished(disk, folder, st', x)
  {
    forall t | t in Targets(disk, folder, x)
      ensures t in st'.scanned && Relative(folder, t) in st'.found
    {
      InPrefix(st.found, st'.found, Relative(folder, t));
    }
  }

  lemma {:induction false} ScanClosed(disk: Disk, folder: string, p: Path, st: ScanState, active: set<Path>)
    requires ClosedExcept(disk, folder, st, active)
    ensures ClosedExcept(disk, folder, Scan(disk, folder, p, st), active)
    decreases Unscanned(disk, st.scanned), 1, 0
  {
    if p !in st.scanned {
      var marked := st.(scanned := st.scanned + {p}, readTrace := st.readTrace + [p]);
      match ReadFile(disk, p)
      case None =>
        forall x | x in marked.scanned && x !in active
          ensures Finished(disk, folder, marked, x)
        {
          if x != p {
            FinishedGrows(disk, folder, st, marked, x);
          }
        }
      case Some(text) =>
        forall x | x in marked.scanned && x !in active + {p}
          ensures Finished(disk, folder, marked, x)
        {
          FinishedGrows(disk, folder, st, marked, x);
        }
        UnscannedDrops(disk, st.scanned, marked.scanned, p);
        ScanIncludesClosed(disk, folder, Includes(text), marked, active + {p});
        ScanUnfold(disk, folder, p, st, text);
        var r := Scan(disk, folder, p, st);
        assert Finished(disk, folder, r, p);
        forall x | x in r.scanned && x !in active
          ensures Finished(disk, folder, r, x)
        {
        }
    }
  }

  lemma {:induction false} ScanIncludesClosed(disk: Disk, folder: string, incs: seq<Include>, st: ScanState, active: set<Path>)
    requires ClosedExcept(disk, folder, st, active)
    ensures var r := ScanIncludes(disk, folder, incs, st);
      && ClosedExcept(disk, folder, r, active)
      && forall t :: t in TargetsOf(disk, folder, incs) ==> t in r.scanned && Relative(folder, t) in r.found
    decreases Unscanned(disk, st.scanned) + 1, 0, |incs|
  {
    if incs != [] {
      var next := Visit(disk, folder, incs[0], st);
      VisitClosed(disk, folder, incs[0], st, active);
      UnscannedShrinks(disk, st.scanned, next.scanned);
      ScanIncludesClosed(disk, folder, incs[1..], next, active);
      TargetsOfCons(disk, folder, incs);
      Collected(folder, IncludeTarget(disk, folder, incs[0]), TargetsOf(disk, folder, incs[1..]), next,
        ScanIncludes(disk, folder, incs[1..], next));
    }
  }

  /** The target of one include and those of the rest of the file are all collected. */
  lemma Collected(folder: string, here: Option<Path>, rest: set<Path>, next: ScanState, r: ScanState)
    requires here.Some? ==> here.value in next.scanned && Relative(folder, here.value) in next.found
    requires Grows(next, r)
    requires forall t :: t in rest ==> t in r.scanned && Relative(folder, t) in r.found
    ensures forall t :: t in (if here.Some? then {here.value} else {}) + rest ==>
      t in r.scanned && Relative(folder, t) in r.found
  {
    if here.Some? {
      InPrefix(next.found, r.found, Relative(folder, here.value));
    }
  }

  lemma {:induction false} VisitClosed(disk: Disk, folder: string, inc: Include, st: ScanState, active: set<Path>)
    requires ClosedExcept(disk, folder, st, active)
    ensures var r := Visit(disk, folder, inc, st);
      && ClosedExcept(disk, folder, r, active)
      && (IncludeTarget(disk, folder, inc).Some? ==>
           var t := IncludeTarget(disk, folder, inc).value;
           t in r.scanned && Relative(folder, t) in r.found)
    decreases Unscanned(disk, st.scanned), 2, 0
  {
    match IncludeTarget(disk, folder, inc)
    case None =>
    case Some(t) =>
      var added := st.(found := Add(st.found, Relative(folder, t)));
      forall x | x in added.scanned && x !in active
        ensures Finished(disk, folder, added, x)
      {
        FinishedGrows(disk, folder, st, added, x);
      }
      ScanClosed(disk, folder, t, added, active);
      InPrefix(added.found, Scan(disk, folder, t, added).found, Relative(folder, t));
  }

  /* ---------------- Soundness: only reachable files are scanned or collected. */

  ghost predicate Sound(disk: Disk, folder: string, root: Path, st: ScanState)
  {
    && (forall x :: x in st.scanned ==> Reachable(disk, folder, root, x))
    && (forall y :: y in st.found ==> exists x :: Reachable(disk, folder, root, x) && y == Relative(folder, x))
  }

  lemma {:induction false} ScanSound(disk: Disk, folder: string, root: Path, p: Path, st: ScanState)
    requires Sound(disk, folder, root, st) && Reachable(disk, folder, root, p)
    ensures Sound(disk, folder, root, Scan(disk, folder, p, st))
    decreases Unscanned(disk, st.scanned), 1, 0
  {
    if p !in st.scanned {
      var marked := st.(scanned := st.scanned + {p}, readTrace := st.readTrace + [p]);
      match ReadFile(disk, p)
      case None =>
      case Some(text) =>
        UnscannedDrops(disk, st.scanned, marked.scanned, p);
        forall t | t in TargetsOf(disk, folder, Includes(text))
          ensures Reachable(disk, folder, root, t)
        {
          ReachableStep(disk, folder, root, p, t);
        }
        ScanIncludesSound(disk, folder, root, Includes(text), marked);
        ScanUnfold(disk, folder, p, st, text);
    }
  }

  lemma {:induction false} ScanIncludesSound(disk: Disk, folder: string, root: Path, incs: seq<Include>, st: ScanState)
    requires Sound(disk, folder, root, st)
    requires forall t :: t in TargetsOf(disk, folder, incs) ==> Reachable(disk, folder, root, t)
    ensures Sound(disk, folder, root, ScanIncludes(disk, folder, incs, st))
    decreases Unscanned(disk, st.scanned) + 1, 0, |incs|
  {
    if incs != [] {
      TargetsOfCons(disk, folder, incs);
      var next := Visit(disk, folder, incs[0], st);
      VisitSound(disk, folder, root, incs[0], st);
      UnscannedShrinks(disk, st.scanned, next.scanned);
      ScanIncludesSound(disk, folder, root, incs[1..], next);
    }
  }

  lemma {:induction false} VisitSound(disk: Disk, folder: string, root: Path, inc: Include, st: ScanState)
    requires Sound(disk, folder, root, st)
    requires IncludeTarget(disk, folder, inc).Some? ==> Reachable(disk, folder, root, IncludeTarget(disk, folder, inc).value)
    ensures Sound(disk, folder, root, Visit(disk, folder, inc, st))
    decreases Unscanned(disk, st.scanned), 2, 0
  {
    match IncludeTarget(disk, folder, inc)
    case None =>
    case Some(t) =>
      var added := st.(found := Add(st.found, Relative(folder, t)));
      assert Sound(disk, folder, root, added);
      ScanSound(disk, folder, root, t, added);
  }

  /* ---------------- Uniqueness: no name collected twice, no path read twice. */

  ghost predicate Unique(st: ScanState)
  {
    && NoDuplicates(st.found)
    && NoDuplicates(st.readTrace)
    && (forall x :: x in st.readTrace <==> x in st.scanned)
  }

  lemma {:induction false} ScanUnique(disk: Disk, folder: string, p: Path, st: ScanState)
    requires Unique(st)
    ensures Unique(Scan(disk, folder, p, st))
    decreases Unscanned(disk, st.scanned), 1, 0
  {
    if p !in st.scanned {
      var marked := st.(scanned := st.scanned + {p}, readTrace := st.readTrace + [p]);
      assert Unique(marked);
      match ReadFile(disk, p)
      case None =>
      case Some(text) =>
        UnscannedDrops(disk, st.scanned, marked.scanned, p);
        ScanIncludesUnique(disk, folder, Includes(text), marked);
        ScanUnfold(disk, folder, p, st, text);
    }
  }

  lemma {:induction false} ScanIncludesUnique(disk: Disk, folder: string, incs: seq<Include>, st: ScanState)
    requires Unique(st)
    ensures Unique(ScanIncludes(disk, folder, incs, st))
    decreases Unscanned(disk, st.scanned) + 1, 0, |incs|
  {
    if incs != [] {
      var next := Visit(disk, folder, incs[0], st);
      VisitUnique(disk, folder, incs[0], st);
      UnscannedShrinks(disk, st.scanned, next.scanned);
      ScanIncludesUnique(disk, folder, incs[1..], next);
    }
  }

  lemma {:induction false} VisitUnique(disk: Disk, folder: string, inc: Include, st: ScanState)
    requires Unique(st)
    ensures Unique(Visit(disk, folder, inc, st))
    decreases Unscanned(disk, st.scanned), 2, 0
  {
    match IncludeTarget(disk, folder, inc)
    case None =>
    case Some(t) =>
      ScanUnique(disk, folder, t, st.(found := Add(st.found, Relative(folder, t))));
  }

  /* ---------------- The resolution `createMakefile` starts. */

  lemma {:induction false} ClosedWalk(disk: Disk, folder: string, r: ScanState, w: seq<Path>)
    requires ClosedExcept(disk, folder, r, {}) && IsWalk(disk, folder, w) && w[0] in r.scanned
    ensures w[|w| - 1] in r.scanned
    decreases |w|
  {
    if |w| > 1 {
      var w' := w[..|w| - 1];
      assert IsWalk(disk, folder, w');
      ClosedWalk(disk, folder, r, w');
      assert Finished(disk, folder, r, w[|w| - 2]);
    }
  }

  /** The invariants hold of the state the walk starts from, so they hold at its end. */
  lemma ResolveInvariants(disk: Disk, folder: string, mainFile: string)
    ensures var r := Resolve(disk, folder, mainFile);
      && ClosedExcept(disk, folder, r, {})
      && Sound(disk, folder, Join(folder, mainFile), r)
      && Unique(r)
  {
    var root := Join(folder, mainFile);
    ReachableRoot(disk, folder, root);
    RelativeJoin(folder, mainFile);
    assert Sound(disk, folder, root, Seed(mainFile));
    ScanClosed(disk, folder, root, Seed(mainFile), {});
    ScanSound(disk, folder, root, root, Seed(mainFile));
    ScanUnique(disk, folder, root, Seed(mainFile));
  }

  /** Scanned means reachable: every file reachable from the entry along kept includes is
      scanned, whatever cycles or shared headers the graph has, and nothing else is. */
  lemma ResolveScansReachable(disk: Disk, folder: string, mainFile: string)
    ensures forall x :: x in Resolve(disk, folder, mainFile).scanned <==>
      Reachable(disk, folder, Join(folder, mainFile), x)
  {
    var root, r := Join(folder, mainFile), Resolve(disk, folder, mainFile);
    ResolveInvariants(disk, folder, mainFile);
    forall x | Reachable(disk, folder, root, x)
      ensures x in r.scanned
    {
      var w :| IsWalk(disk, folder, w) && w[0] == root && w[|w| - 1] == x;
      ClosedWalk(disk, folder, r, w);
    }
  }

  /** Every reachable file's folder-relative name is collected. */
  lemma ResolveCollectsEveryReachable(disk: Disk, folder: string, mainFile: string)
    ensures forall x :: Reachable(disk, folder, Join(folder, mainFile), x) ==>
      Relative(folder, x) in Resolve(disk, folder, mainFile).found
  {
    var root, r := Join(folder, mainFile), Resolve(disk, folder, mainFile);
    ResolveInvariants(disk, folder, mainFile);
    ResolveScansReachable(disk, folder, mainFile);
    assert [mainFile] <= r.found;
    forall x | Reachable(disk, folder, root, x)
      ensures Relative(folder, x) in r.found
    {
      if x == root {
        RelativeJoin(folder, mainFile);
        assert r.found[0] == mainFile;
      } else {
        var y := ReachableLast(disk, folder, root, x);
        assert Finished(disk, folder, r, y);
      }
    }
  }

  /** `SRCS` names exactly the reachable files, folder-relative, the entry first and
      none twice. */
  lemma ResolveCollectsReachable(disk: Disk, folder: string, mainFile: string)
    ensures var r := Resolve(disk, folder, mainFile);
      && |r.found| >= 1 && r.found[0] == mainFile
      && NoDuplicates(r.found)
      && forall y :: y in r.found <==>
           exists x :: Reachable(disk, folder, Join(folder, mainFile), x) && y == Relative(folder, x)
  {
    var r := Resolve(disk, folder, mainFile);
    assert [mainFile] <= r.found;
    ResolveInvariants(disk, folder, mainFile);
    ResolveCollectsEveryReachable(disk, folder, mainFile);
  }

  /** Each file's contents are requested once at most: the reads are exactly the
      reachable files, with no repetition. */
  lemma ResolveReadsEachOnce(disk: Disk, folder: string, mainFile: string)
    ensures var r := Resolve(disk, folder, mainFile);
      && NoDuplicates(r.readTrace)
      && forall x :: x in r.readTrace <==> Reachable(disk, folder, Join(folder, mainFile), x)
  {
    ResolveInvariants(disk, folder, mainFile);
    ResolveScansReachable(disk, folder, mainFile);
  }

  lemma {:induction false} TargetsOfNotHeaders(disk: Disk, folder: string, incs: seq<Include>)
    requires forall i :: 0 <= i < |incs| ==> |incs[i].header| >= 1
    ensures forall t :: t in TargetsOf(disk, folder, incs) ==> !EndsWith(t, ".h")
  {
    if incs != [] {
      TargetsOfCons(disk, folder, incs);
      TargetsOfNotHeaders(disk, folder, incs[1..]);
      var h := incs[0].header;
      SourceForHeaderShape(h);
      JoinedHeaderName(folder, SourceForHeader(h));
    }
  }

  /** Headers are never read: apart from the entry itself, every path the walk reads is a
      candidate whose `.h` was rewritten to `.c` (or a name that never ended in `.h`). */
  lemma ResolveNeverReadsHeaders(disk: Disk, folder: string, mainFile: string)
    ensures forall x :: x in Resolve(disk, folder, mainFile).readTrace && x != Join(folder, mainFile) ==>
      !EndsWith(x, ".h")
  {
    var root := Join(folder, mainFile);
    ResolveReadsEachOnce(disk, folder, mainFile);
    forall x | x in Resolve(disk, folder, mainFile).readTrace && x != root
      ensures !EndsWith(x, ".h")
    {
      var y := ReachableLast(disk, folder, root, x);
      var text := ReadFile(disk, y).value;
      TargetsOfNotHeaders(disk, folder, Includes(text));
    }
  }

  /** System includes contribute nothing: a run of includes whose matches all contain
      `<` reads no file and leaves both Sets as they were. */
  lemma {:induction false} SystemIncludesChangeNothing(disk: Disk, folder: string, incs: seq<Include>, st: ScanState)
    requires forall i :: 0 <= i < |incs| ==> IsSystemInclude(incs[i])
    ensures ScanIncludes(disk, folder, incs, st) == st
    ensures TargetsOf(disk, folder, incs) == {}
    decreases |incs|
  {
    if incs != [] {
      SystemIncludesChangeNothing(disk, folder, incs[1..], st);
    }
  }

  /** An entry file whose only includes are system headers resolves to itself alone. */
  lemma ResolveOnlySystemIncludes(disk: Disk, folder: string, mainFile: string, text: string)
    requires ReadFile(disk, Join(folder, mainFile)) == Some(text)
    requires forall i :: 0 <= i < |Includes(text)| ==> IsSystemInclude(Includes(text)[i])
    ensures Resolve(disk, folder, mainFile).found == [mainFile]
    ensures Resolve(disk, folder, mainFile).readTrace == [Join(folder, mainFile)]
  {
    var root := Join(folder, mainFile);
    var seed := Seed(mainFile);
    assert root !in seed.scanned;
    var marked := seed.(scanned := seed.scanned + {root}, readTrace := seed.readTrace + [root]);
    ScanUnfold(disk, folder, root, seed, text);
    SystemIncludesChangeNothing(disk, folder, Includes(text), marked);
    assert Resolve(disk, folder, mainFile) == marked;
  }

  /** An entry file that cannot be read resolves to itself alone, without error. */
  lemma ResolveUnreadableEntry(disk: Disk, folder: string, mainFile: string)
    requires ReadFile(disk, Join(folder, mainFile)).None?
    ensures Resolve(disk, folder, mainFile).found == [mainFile]
    ensures Resolve(disk, folder, mainFile).scanned == {Join(folder, mainFile)}
  {
    var root := Join(folder, mainFile);
    assert root !in Seed(mainFile).scanned;
    var r := Scan(disk, folder, root, Seed(mainFile));
    assert r == Seed(mainFile).(scanned := {root}, readTrace := [root]);
    assert r == Resolve(disk, folder, mainFile);
  }
}
