/** `findDependentCFiles`: the depth-first walk over local includes that collects the
    C sources a translation unit depends on. `Scan` and `ScanIncludes` state what one
    call does to the visited set and the result set; `IncludeScanner` is the stateful
    version, holding the two JavaScript Sets that the call mutates. */
module Resolver {
  import opened Wrappers
  import opened Paths
  import opened FileSystem
  import opened IncludeLexer

  predicate NoDuplicates<T(==)>(s: seq<T>)
  {
    forall i, j :: 0 <= i < j < |s| ==> s[i] != s[j]
  }

  /** `set.add(x)` on a JavaScript Set, seen in insertion order: a value already
      present keeps its place, a new one goes last. */
  function Add(s: seq<string>, x: string): (r: seq<string>)
    ensures s <= r
    ensures forall y :: y in r <==> y in s || y == x
    ensures NoDuplicates(s) ==> NoDuplicates(r)
  {
    if x in s then s else s + [x]
  }

  /** The state one resolution threads through its recursive calls: `scanned` is the
      `scannedFiles` Set, `found` the `cFilesSet` Set in insertion order, and
      `readTrace` the paths passed to `fs.readFileSync`, in call order. */
  datatype ScanState = ScanState(scanned: set<Path>, found: seq<string>, readTrace: seq<Path>)

  /** Nothing is ever removed: both Sets and the read trace only grow. */
  predicate Grows(before: ScanState, after: ScanState)
  {
    before.scanned <= after.scanned && before.found <= after.found && before.readTrace <= after.readTrace
  }

  /** The existing paths not yet scanned: the measure that makes the walk terminate. */
  function Unscanned(disk: Disk, scanned: set<Path>): nat
  {
    |disk.files.Keys - scanned|
  }

  lemma UnscannedShrinks(disk: Disk, a: set<Path>, b: set<Path>)
    requires a <= b
    ensures Unscanned(disk, b) <= Unscanned(disk, a)
  {
    var k := disk.files.Keys;
    assert (k - a) == (k - b) + ((k - a) - (k - b));
  }

  lemma UnscannedDrops(disk: Disk, a: set<Path>, b: set<Path>, p: Path)
    requires a <= b && p in disk.files && p !in a && p in b
    ensures Unscanned(disk, b) < Unscanned(disk, a)
  {
    var k := disk.files.Keys;
    assert (k - a) == (k - b) + ((k - a) - (k - b));
    assert p in (k - a) - (k - b);
  }

  /** The path an include leads to: the joined `.c` file of its header. */
  function CandidatePath(folder: string, inc: Include): Path
  {
    Join(folder, SourceForHeader(inc.header))
  }

  /** What one include contributes to the graph: nothing for a system include or for a
      candidate that does not exist, otherwise its candidate path. */
  function IncludeTarget(disk: Disk, folder: string, inc: Include): (r: Option<Path>)
    ensures r.Some? ==> Exists(disk, r.value) && !IsSystemInclude(inc) && r.value == CandidatePath(folder, inc)
    ensures r.None? ==> IsSystemInclude(inc) || !Exists(disk, CandidatePath(folder, inc))
  {
    if IsSystemInclude(inc) then None
    else if Exists(disk, CandidatePath(folder, inc)) then Some(CandidatePath(folder, inc))
    else None
  }

  /** One call `findDependentCFiles(folder, p, found, scanned)`. */
  function Scan(disk: Disk, folder: string, p: Path, st: ScanState): (r: ScanState)
    ensures Grows(st, r) && p in r.scanned
    ensures p in st.scanned ==> r == st
    ensures p !in st.scanned ==> |r.readTrace| > |st.readTrace| && r.readTrace[|st.readTrace|] == p
    ensures p !in st.scanned && ReadFile(disk, p).None? ==>
      r == st.(scanned := st.scanned + {p}, readTrace := st.readTrace + [p])
    decreases Unscanned(disk, st.scanned), 1, 0
  {
    if p in st.scanned then st
    else
      var marked := st.(scanned := st.scanned + {p}, readTrace := st.readTrace + [p]);
      match ReadFile(disk, p)
      case None => marked
      case Some(text) =>
        UnscannedDrops(disk, st.scanned, marked.scanned, p);
        var r := ScanIncludes(disk, folder, Includes(text), marked);
        assert r.readTrace[|st.readTrace|] == marked.readTrace[|st.readTrace|];
        r
  }

  /** The body of that call's loop for one include: skip a system include or a missing
      candidate, otherwise add the candidate's folder-relative name and recurse into it. */
  function Visit(disk: Disk, folder: string, inc: Include, st: ScanState): (r: ScanState)
    ensures Grows(st, r)
    ensures IsSystemInclude(inc) || !Exists(disk, CandidatePath(folder, inc)) ==> r == st
    ensures !IsSystemInclude(inc) && Exists(disk, CandidatePath(folder, inc)) ==>
      Relative(folder, CandidatePath(folder, inc)) in r.found && CandidatePath(folder, inc) in r.scanned
    decreases Unscanned(disk, st.scanned), 2, 0
  {
    match IncludeTarget(disk, folder, inc)
    case None => st
    case Some(cPath) => Scan(disk, folder, cPath, st.(found := Add(st.found, Relative(folder, cPath))))
  }

  /** The loop itself, over the includes still to come. */
  function ScanIncludes(disk: Disk, folder: string, incs: seq<Include>, st: ScanState): (r: ScanState)
    ensures Grows(st, r)
    decreases Unscanned(disk, st.scanned) + 1, 0, |incs|
  {
    if incs == [] then st
    else
      var next := Visit(disk, folder, incs[0], st);
      UnscannedShrinks(disk, st.scanned, next.scanned);
      ScanIncludes(disk, folder, incs[1..], next)
  }

  /** The include graph: the paths a file's kept includes lead to. An unreadable file
      has no edges. */
  function Targets(disk: Disk, folder: string, p: Path): set<Path>
  {
    match ReadFile(disk, p)
    case None => {}
    case Some(text) => TargetsOf(disk, folder, Includes(text))
  }

  function TargetsOf(disk: Disk, folder: string, incs: seq<Include>): (r: set<Path>)
    ensures forall t :: t in r ==> Exists(disk, t)
  {
    if incs == [] then {}
    else
      var here := match IncludeTarget(disk, folder, incs[0])
        case None => {}
        case Some(cPath) => {cPath};
      here + TargetsOf(disk, folder, incs[1..])
  }

  /** The state `createMakefile` starts the walk from: `new Set([mainFile])` and `new Set()`. */
  function Seed(mainFile: string): ScanState
  {
    ScanState({}, [mainFile], [])
  }

  /** `findDependentCFiles(folder, path.join(folder, mainFile), new Set([mainFile]), new Set())`. */
  function Resolve(disk: Disk, folder: string, mainFile: string): ScanState
  {
    Scan(disk, folder, Join(folder, mainFile), Seed(mainFile))
  }

  /** Entering a call that passes the guard and reads its file. */
  lemma ScanUnfold(disk: Disk, folder: string, p: Path, st: ScanState, text: string)
    requires p !in st.scanned && ReadFile(disk, p) == Some(text)
    ensures Scan(disk, folder, p, st) ==
      ScanIncludes(disk, folder, Includes(text), st.(scanned := st.scanned + {p}, readTrace := st.readTrace + [p]))
  {
  }

  /** The loop's first turn, then the rest. */
  lemma ScanIncludesCons(disk: Disk, folder: string, inc: Include, rest: seq<Include>, st: ScanState)
    ensures ScanIncludes(disk, folder, [inc] + rest, st) == ScanIncludes(disk, folder, rest, Visit(disk, folder, inc, st))
  {
    assert ([inc] + rest)[1..] == rest;
  }

  /** The loop body skips a system include, */
  lemma VisitSystem(disk: Disk, folder: string, inc: Include, st: ScanState)
    requires IsSystemInclude(inc)
    ensures Visit(disk, folder, inc, st) == st
  {
  }

  /** skips a candidate that does not exist, */
  lemma VisitMissing(disk: Disk, folder: string, inc: Include, st: ScanState)
    requires !IsSystemInclude(inc) && !Exists(disk, CandidatePath(folder, inc))
    ensures Visit(disk, folder, inc, st) == st
  {
  }

  /** and otherwise adds the candidate's relative name and recurses into it. */
  lemma VisitFollow(disk: Disk, folder: string, inc: Include, st: ScanState)
    requires !IsSystemInclude(inc) && Exists(disk, CandidatePath(folder, inc))
    ensures Visit(disk, folder, inc, st) ==
      Scan(disk, folder, CandidatePath(folder, inc), st.(found := Add(st.found, Relative(folder, CandidatePath(folder, inc)))))
  {
  }

  /** One turn of the loop in terms of what remains to do: once the next include has
      been visited, the includes after it lead to the same final state. */
  lemma LoopStep(disk: Disk, folder: string, inc: Include, rest: seq<Include>, st: ScanState, after: ScanState, goal: ScanState)
    requires ScanIncludes(disk, folder, [inc] + rest, st) == goal
    requires after == Visit(disk, folder, inc, st)
    ensures ScanIncludes(disk, folder, rest, after) == goal
  {
    ScanIncludesCons(disk, folder, inc, rest, st);
  }

  /** The two Sets that one resolution mutates in place, and the trace of reads. */
  class IncludeScanner {
    const disk: Disk
    const folder: string
    var scannedFiles: set<Path>
    var cFiles: seq<string>
    ghost var readLog: seq<Path>

    constructor (disk: Disk, folder: string, mainFile: string)
      ensures this.disk == disk && this.folder == folder
      ensures State() == Seed(mainFile)
    {
      this.disk := disk;
      this.folder := folder;
      scannedFiles := {};
      cFiles := [mainFile];
      readLog := [];
    }

    ghost function State(): ScanState
      reads this
    {
      ScanState(scannedFiles, cFiles, readLog)
    }

    /** `findDependentCFiles(folder, filePath, cFiles, scannedFiles)`. */
    method FindDependentCFiles(filePath: Path)
      modifies this
      ensures State() == Scan(disk, folder, filePath, old(State()))
      decreases Unscanned(disk, scannedFiles)
    {
      if filePath in scannedFiles {
        return;
      }
      scannedFiles := scannedFiles + {filePath};
      readLog := readLog + [filePath];
      var content := ReadFile(disk, filePath);
      if content.None? {
        return;
      }
      var text := content.value;
      ScanUnfold(disk, folder, filePath, old(State()), text);
      UnscannedDrops(disk, old(scannedFiles), scannedFiles, filePath);
      var lastIndex := 0;
      ghost var goal := Scan(disk, folder, filePath, old(State()));
      while true
        invariant lastIndex <= |text|
        invariant old(scannedFiles) <= scannedFiles
        invariant Unscanned(disk, scannedFiles) < Unscanned(disk, old(scannedFiles))
        invariant ScanIncludes(disk, folder, IncludesFrom(text, lastIndex), State()) == goal
        decreases |text| - lastIndex
      {
        ghost var before := State();
        var hit := Exec(text, lastIndex);
        if hit.None? {
          IncludesFromEnd(text, lastIndex);
          break;
        }
        var m := hit.value;
        ghost var inc := Include(Whole(text, m), Header(text, m));
        IncludesFromNext(text, lastIndex, m);
        lastIndex := m.close + 1;
        if '<' in Whole(text, m) {
          VisitSystem(disk, folder, inc, before);
          LoopStep(disk, folder, inc, IncludesFrom(text, lastIndex), before, State(), goal);
          continue;
        }
        var header := Header(text, m);
        var cFile := SourceForHeader(header);
        var cPath := Join(folder, cFile);
        if Exists(disk, cPath) {
          VisitFollow(disk, folder, inc, before);
          cFiles := Add(cFiles, Relative(folder, cPath));
          FindDependentCFiles(cPath);
          UnscannedShrinks(disk, before.scanned, scannedFiles);
        } else {
          VisitMissing(disk, folder, inc, before);
        }
        LoopStep(disk, folder, inc, IncludesFrom(text, lastIndex), before, State(), goal);
      }
    }
  }
}
