/** `createMakefile`: resolve the entry file's sources, then render a fixed 17-line
    Makefile around the compiler settings, the executable's name and the source list. */
module Makefile {
  import opened Wrappers
  import opened Paths
  import opened FileSystem
  import opened Resolver
  import opened ResolverProofs

  /** The three `cCompiler` workspace settings, None where the user has not set one. */
  datatype Settings = Settings(cc: Option<string>, cflags: Option<seq<string>>, libs: Option<seq<string>>)

  datatype CompilerConfig = CompilerConfig(cc: string, cflags: seq<string>, libs: seq<string>)

  /** `cfg.get(key, default)`. */
  function Get<T>(setting: Option<T>, default: T): T
  {
    match setting
    case Some(v) => v
    case None => default
  }

  /** The three `cfg.get` lookups with their defaults `gcc`, `-Wall -g` and no libraries. */
  function ConfigFrom(s: Settings): (c: CompilerConfig)
    ensures c.cc == (if s.cc.Some? then s.cc.value else "gcc")
    ensures c.cflags == (if s.cflags.Some? then s.cflags.value else ["-Wall", "-g"])
    ensures c.libs == (if s.libs.Some? then s.libs.value else [])
  {
    CompilerConfig(Get(s.cc, "gcc"), Get(s.cflags, ["-Wall", "-g"]), Get(s.libs, []))
  }

  /** `Array.prototype.join(sep)`. */
  function JoinWith(sep: char, parts: seq<string>): (r: string)
    ensures parts == [] ==> r == ""
    ensures parts != [] ==> StartsWith(r, parts[0])
    ensures (forall i :: 0 <= i < |parts| ==> sep !in parts[i]) ==> (sep in r <==> |parts| > 1)
  {
    if |parts| == 0 then ""
    else if |parts| == 1 then parts[0]
    else parts[0] + [sep] + JoinWith(sep, parts[1..])
  }

  /** `String.prototype.split(sep)` for a one-character separator: the inverse of
      JoinWith, used to read the generated text back. */
  function Split(sep: char, s: string): (r: seq<string>)
    ensures |r| >= 1
    ensures forall i :: 0 <= i < |r| ==> sep !in r[i]
    decreases |s|
  {
    if |s| == 0 then [""]
    else
      var rest := Split(sep, s[1..]);
      if s[0] == sep then [""] + rest else [[s[0]] + rest[0]] + rest[1..]
  }

  lemma {:induction false} SplitNoSeparator(sep: char, a: string)
    requires sep !in a
    ensures Split(sep, a) == [a]
    decreases |a|
  {
    if |a| > 0 {
      SplitNoSeparator(sep, a[1..]);
      assert [a[0]] + a[1..] == a;
    }
  }

  lemma {:induction false} SplitAfterSeparator(sep: char, a: string, b: string)
    requires sep !in a
    ensures Split(sep, a + [sep] + b) == [a] + Split(sep, b)
    decreases |a|
  {
    var s := a + [sep] + b;
    if |a| == 0 {
      assert s[1..] == b;
    } else {
      assert s[1..] == a[1..] + [sep] + b;
      SplitAfterSeparator(sep, a[1..], b);
      assert [a[0]] + a[1..] == a;
    }
  }

  /** Splitting a join gives the parts back, when no part holds the separator. */
  lemma {:induction false} SplitJoin(sep: char, parts: seq<string>)
    requires |parts| >= 1
    requires forall i :: 0 <= i < |parts| ==> sep !in parts[i]
    ensures Split(sep, JoinWith(sep, parts)) == parts
    decreases |parts|
  {
    if |parts| == 1 {
      SplitNoSeparator(sep, parts[0]);
    } else {
      SplitAfterSeparator(sep, parts[0], JoinWith(sep, parts[1..]));
      SplitJoin(sep, parts[1..]);
    }
  }

  /** Lines 6 to 17: the object list, the `all` goal, the link rule, the `%.o: %.c`
      pattern rule and `clean`, with their blank separator lines. */
  const RuleLines: seq<string> := [
    "OBJS=$(SRCS:.c=.o)",
    "",
    "all: $(MAIN)",
    "",
    "$(MAIN): $(OBJS)",
    "\t$(CC) $(CFLAGS) $(OBJS) $(LIBS) -o $(MAIN)",
    "",
    "%.o: %.c",
    "\t$(CC) $(CFLAGS) -c $< -o $@",
    "",
    "clean:",
    "\trm -f $(OBJS) $(MAIN)"
  ]

  /** The first five lines of the `lines` array: the variable bindings. */
  function Bindings(config: CompilerConfig, mainFile: string, srcs: seq<string>): seq<string>
  {
    [ "CC=" + config.cc,
      "CFLAGS=" + JoinWith(' ', config.cflags),
      "LIBS=" + JoinWith(' ', config.libs),
      "MAIN=" + StripSourceExtension(mainFile),
      "SRCS=" + JoinWith(' ', srcs)
    ]
  }

  /** The `lines` array of `createMakefile`. */
  function MakefileLines(config: CompilerConfig, mainFile: string, srcs: seq<string>): seq<string>
  {
    Bindings(config, mainFile, srcs) + RuleLines
  }

  /** With no setting made, the first three lines are `CC=gcc`, `CFLAGS=-Wall -g` and an
      empty `LIBS=`. */
  lemma DefaultSettingsLines(mainFile: string, srcs: seq<string>)
    ensures MakefileLines(ConfigFrom(Settings(None, None, None)), mainFile, srcs)[..3] == ["CC=gcc", "CFLAGS=-Wall -g", "LIBS="]
  {
    var config := ConfigFrom(Settings(None, None, None));
    assert ["-Wall", "-g"][1..] == ["-g"];
    assert JoinWith(' ', ["-Wall", "-g"]) == "-Wall -g";
    assert JoinWith(' ', []) == "";
    assert MakefileLines(config, mainFile, srcs)[..3] == ["CC=" + "gcc", "CFLAGS=" + "-Wall -g", "LIBS=" + ""];
    assert "CC=" + "gcc" == "CC=gcc";
    assert "CFLAGS=" + "-Wall -g" == "CFLAGS=-Wall -g";
    assert "LIBS=" + "" == "LIBS=";
  }

  /** `lines.join('\n')`. */
  function MakefileText(config: CompilerConfig, mainFile: string, srcs: seq<string>): string
  {
    JoinWith('\n', MakefileLines(config, mainFile, srcs))
  }

  /** The value a Makefile reader gives variable `name`: what follows `name=` on the
      first line that starts so. */
  function Lookup(lines: seq<string>, name: string): Option<string>
  {
    if lines == [] then None
    else if StartsWith(lines[0], name + "=") then Some(lines[0][|name| + 1..])
    else Lookup(lines[1..], name)
  }

  lemma LookupHere(lines: seq<string>, name: string, value: string)
    requires |lines| > 0 && lines[0] == name + "=" + value
    ensures Lookup(lines, name) == Some(value)
  {
    assert lines[0][..|name| + 1] == name + "=";
  }

  lemma LookupSkip(line: string, rest: seq<string>, name: string, k: nat)
    requires k < |name| + 1 && k < |line| && line[k] != (name + "=")[k]
    ensures Lookup([line] + rest, name) == Lookup(rest, name)
  {
    assert ([line] + rest)[1..] == rest;
  }

  ghost predicate NoNewline(s: string)
  {
    '\n' !in s
  }

  lemma {:induction false} JoinNoNewline(parts: seq<string>)
    requires forall i :: 0 <= i < |parts| ==> NoNewline(parts[i])
    ensures '\n' !in JoinWith(' ', parts)
    decreases |parts|
  {
    if |parts| > 1 {
      JoinNoNewline(parts[1..]);
    }
  }

  lemma {:induction false} LookupPrefix(a: seq<string>, b: seq<string>, name: string)
    requires Lookup(a, name).Some?
    ensures Lookup(a + b, name) == Lookup(a, name)
  {
    if !StartsWith(a[0], name + "=") {
      assert (a + b)[1..] == a[1..] + b;
      LookupPrefix(a[1..], b, name);
    }
  }

  lemma RuleLinesHaveNoNewline()
    ensures forall i :: 0 <= i < |RuleLines| ==> NoNewline(RuleLines[i])
  {
  }

  /** Split at newlines, the generated text gives back the 17 lines it was joined from,
      whenever no input contains a newline. */
  lemma MakefileSplitsIntoLines(config: CompilerConfig, mainFile: string, srcs: seq<string>)
    requires NoNewline(config.cc) && NoNewline(mainFile)
    requires forall i :: 0 <= i < |config.cflags| ==> NoNewline(config.cflags[i])
    requires forall i :: 0 <= i < |config.libs| ==> NoNewline(config.libs[i])
    requires forall i :: 0 <= i < |srcs| ==> NoNewline(srcs[i])
    ensures Split('\n', MakefileText(config, mainFile, srcs)) == MakefileLines(config, mainFile, srcs)
  {
    var bindings := Bindings(config, mainFile, srcs);
    JoinNoNewline(config.cflags);
    JoinNoNewline(config.libs);
    JoinNoNewline(srcs);
    var main := StripSourceExtension(mainFile);
    assert '\n' !in main by {
      if EndsWith(mainFile, ".c") {
        assert main == mainFile[..|mainFile| - 2];
      }
    }
    assert forall i :: 0 <= i < |bindings| ==> NoNewline(bindings[i]);
    RuleLinesHaveNoNewline();
    var lines := bindings + RuleLines;
    assert forall i :: 0 <= i < |lines| ==> NoNewline(lines[i]) by {
      forall i | 0 <= i < |lines|
        ensures NoNewline(lines[i])
      {
        if i < 5 {
          assert lines[i] == bindings[i];
        } else {
          assert lines[i] == RuleLines[i - 5];
        }
      }
    }
    SplitJoin('\n', lines);
  }

  /** The five binding lines as a chain of one-line steps. */
  lemma BindingsShape(config: CompilerConfig, mainFile: string, srcs: seq<string>)
    ensures Bindings(config, mainFile, srcs) ==
      ["CC=" + config.cc] + (["CFLAGS=" + JoinWith(' ', config.cflags)] + (["LIBS=" + JoinWith(' ', config.libs)] +
        (["MAIN=" + StripSourceExtension(mainFile)] + ["SRCS=" + JoinWith(' ', srcs)])))
  {
  }

  lemma BindsCompiler(config: CompilerConfig, mainFile: string, srcs: seq<string>)
    ensures Lookup(Bindings(config, mainFile, srcs), "CC") == Some(config.cc)
    ensures Lookup(Bindings(config, mainFile, srcs), "CFLAGS") == Some(JoinWith(' ', config.cflags))
    ensures Lookup(Bindings(config, mainFile, srcs), "LIBS") == Some(JoinWith(' ', config.libs))
  {
    var cc, cflags, libs := "CC=" + config.cc, "CFLAGS=" + JoinWith(' ', config.cflags), "LIBS=" + JoinWith(' ', config.libs);
    var r2 := [libs] + (["MAIN=" + StripSourceExtension(mainFile)] + ["SRCS=" + JoinWith(' ', srcs)]);
    var r1 := [cflags] + r2;
    BindingsShape(config, mainFile, srcs);
    LookupHere([cc] + r1, "CC", config.cc);
    LookupSkip(cc, r1, "CFLAGS", 1);
    LookupHere(r1, "CFLAGS", JoinWith(' ', config.cflags));
    LookupSkip(cc, r1, "LIBS", 0);
    LookupSkip(cflags, r2, "LIBS", 0);
    LookupHere(r2, "LIBS", JoinWith(' ', config.libs));
  }

  lemma BindsTarget(config: CompilerConfig, mainFile: string, srcs: seq<string>)
    ensures Lookup(Bindings(config, mainFile, srcs), "MAIN") == Some(StripSourceExtension(mainFile))
    ensures Lookup(Bindings(config, mainFile, srcs), "SRCS") == Some(JoinWith(' ', srcs))
  {
    var cc, cflags, libs, main, sources :=
      "CC=" + config.cc, "CFLAGS=" + JoinWith(' ', config.cflags), "LIBS=" + JoinWith(' ', config.libs),
      "MAIN=" + StripSourceExtension(mainFile), "SRCS=" + JoinWith(' ', srcs);
    var r4 := [sources];
    var r3 := [main] + r4;
    var r2 := [libs] + r3;
    var r1 := [cflags] + r2;
    BindingsShape(config, mainFile, srcs);
    LookupSkip(cc, r1, "MAIN", 0);
    LookupSkip(cflags, r2, "MAIN", 0);
    LookupSkip(libs, r3, "MAIN", 0);
    LookupHere(r3, "MAIN", StripSourceExtension(mainFile));
    LookupSkip(cc, r1, "SRCS", 0);
    LookupSkip(cflags, r2, "SRCS", 0);
    LookupSkip(libs, r3, "SRCS", 0);
    LookupSkip(main, r4, "SRCS", 0);
    LookupHere(r4, "SRCS", JoinWith(' ', srcs));
  }

  /** The first five lines bind CC, CFLAGS, LIBS, MAIN and SRCS to the compiler, the
      space-joined flags and libraries, the entry without its `.c`, and the space-joined
      sources; a Makefile reader finds each binding whatever the values hold. */
  lemma MakefileBindings(config: CompilerConfig, mainFile: string, srcs: seq<string>)
    ensures var lines := MakefileLines(config, mainFile, srcs);
      && Lookup(lines, "CC") == Some(config.cc)
      && Lookup(lines, "CFLAGS") == Some(JoinWith(' ', config.cflags))
      && Lookup(lines, "LIBS") == Some(JoinWith(' ', config.libs))
      && Lookup(lines, "MAIN") == Some(StripSourceExtension(mainFile))
      && Lookup(lines, "SRCS") == Some(JoinWith(' ', srcs))
  {
    var b := Bindings(config, mainFile, srcs);
    BindsCompiler(config, mainFile, srcs);
    BindsTarget(config, mainFile, srcs);
    LookupPrefix(b, RuleLines, "CC");
    LookupPrefix(b, RuleLines, "CFLAGS");
    LookupPrefix(b, RuleLines, "LIBS");
    LookupPrefix(b, RuleLines, "MAIN");
    LookupPrefix(b, RuleLines, "SRCS");
  }

  /** What `make` is given to build: the SRCS line of the Makefile for `mainFile` starts
      with the entry file and, read back word by word when no name holds a space, lists
      each source reachable from the entry exactly once (relative to the folder). */
  lemma MakefileListsReachableSources(disk: Disk, folder: string, mainFile: string, config: CompilerConfig)
    ensures var srcs := Resolve(disk, folder, mainFile).found;
      && Lookup(MakefileLines(config, mainFile, srcs), "SRCS") == Some(JoinWith(' ', srcs))
      && StartsWith(JoinWith(' ', srcs), mainFile)
      && ((forall i :: 0 <= i < |srcs| ==> ' ' !in srcs[i]) ==>
            var words := Split(' ', JoinWith(' ', srcs));
            && words[0] == mainFile
            && NoDuplicates(words)
            && forall y :: y in words <==>
                 exists x :: Reachable(disk, folder, Join(folder, mainFile), x) && y == Relative(folder, x))
  {
    var srcs := Resolve(disk, folder, mainFile).found;
    MakefileBindings(config, mainFile, srcs);
    ResolveCollectsReachable(disk, folder, mainFile);
    if forall i :: 0 <= i < |srcs| ==> ' ' !in srcs[i] {
      SplitJoin(' ', srcs);
    }
  }

  /** `createMakefile(folder, mainFile)` with the settings already looked up. */
  method CreateMakefile(disk: Disk, folder: string, mainFile: string, config: CompilerConfig) returns (text: string)
    ensures text == MakefileText(config, mainFile, Resolve(disk, folder, mainFile).found)
  {
    var mainPath := Join(folder, mainFile);
    var scanner := new IncludeScanner(disk, folder, mainFile);
    scanner.FindDependentCFiles(mainPath);
    var lines := [
      "CC=" + config.cc,
      "CFLAGS=" + JoinWith(' ', config.cflags),
      "LIBS=" + JoinWith(' ', config.libs),
      "MAIN=" + StripSourceExtension(mainFile),
      "SRCS=" + JoinWith(' ', scanner.cFiles)
    ] + RuleLines;
    text := JoinWith('\n', lines);
  }
}
