/** Strings, suffixes and the two `path` operations the extension uses, over a
    single fixed folder: `path.join(folder, name)` and `path.relative(folder, p)`. */
module Paths {

  type Path = string

  predicate EndsWith(s: string, suffix: string)
  {
    |suffix| <= |s| && s[|s| - |suffix|..] == suffix
  }

  predicate StartsWith(s: string, prefix: string)
  {
    |prefix| <= |s| && s[..|prefix|] == prefix
  }

  /** `s.replace(/<suffix>$/, replacement)`: the regular expression is anchored at the
      end of the string (no multiline flag), so only a trailing occurrence changes. */
  function ReplaceTrailing(s: string, suffix: string, replacement: string): (r: string)
    ensures EndsWith(s, suffix) ==> |r| == |s| - |suffix| + |replacement| && EndsWith(r, replacement)
    ensures EndsWith(s, suffix) ==> r[..|s| - |suffix|] == s[..|s| - |suffix|]
    ensures !EndsWith(s, suffix) ==> r == s
  {
    if EndsWith(s, suffix) then s[..|s| - |suffix|] + replacement else s
  }

  /** `header.replace(/\.h$/, '.c')`: the source file that goes with an included header. */
  function SourceForHeader(header: string): string
  {
    ReplaceTrailing(header, ".h", ".c")
  }

  /** `mainFile.replace(/\.c$/, '')`: the executable's name. */
  function StripSourceExtension(mainFile: string): string
  {
    ReplaceTrailing(mainFile, ".c", "")
  }

  /** A header name `stem.h` becomes `stem.c` with the same stem; any other name is kept,
      and in no case is the candidate itself a `.h` name, so a header is never read. */
  lemma {:induction false} SourceForHeaderShape(header: string)
    ensures EndsWith(header, ".h") ==>
      EndsWith(SourceForHeader(header), ".c") && SourceForHeader(header)[..|header| - 2] == header[..|header| - 2]
    ensures !EndsWith(header, ".h") ==> SourceForHeader(header) == header
    ensures !EndsWith(SourceForHeader(header), ".h")
  {
    var c := SourceForHeader(header);
    if EndsWith(header, ".h") {
      assert c[|c| - 2..] == ".c";
      assert c[|c| - 1] == 'c';
    }
  }

  /** `MAIN` is the entry file with one trailing `.c` removed: putting `.c` back gives
      the entry file again; a name without `.c` is used as it is. */
  lemma {:induction false} StripSourceExtensionInverse(mainFile: string)
    ensures EndsWith(mainFile, ".c") ==> StripSourceExtension(mainFile) + ".c" == mainFile
    ensures !EndsWith(mainFile, ".c") ==> StripSourceExtension(mainFile) == mainFile
  {
    if EndsWith(mainFile, ".c") {
      var m := StripSourceExtension(mainFile);
      assert m == mainFile[..|mainFile| - 2];
      assert mainFile == mainFile[..|mainFile| - 2] + mainFile[|mainFile| - 2..];
    }
  }

  /** `path.join(folder, name)` for a name relative to the folder. */
  function Join(folder: string, name: string): Path
  {
    folder + "/" + name
  }

  /** `path.relative(folder, p)` for a path inside the folder: the part after `folder/`.
      A path outside the folder is returned unchanged. */
  function Relative(folder: string, p: Path): string
  {
    if StartsWith(p, folder + "/") then p[|folder| + 1..] else p
  }

  /** Relative undoes Join ... */
  lemma {:induction false} RelativeJoin(folder: string, name: string)
    ensures Relative(folder, Join(folder, name)) == name
  {
    var p := Join(folder, name);
    assert p[..|folder| + 1] == folder + "/";
    assert p[|folder| + 1..] == name;
  }

  /** ... and Join undoes Relative on every path inside the folder. */
  lemma {:induction false} JoinRelative(folder: string, p: Path)
    requires StartsWith(p, folder + "/")
    ensures Join(folder, Relative(folder, p)) == p
  {
    assert p == p[..|folder| + 1] + p[|folder| + 1..];
  }

  /** Two names join to the same path only when they are equal, so keying the visited
      set on joined paths is the same as keying it on the names. */
  lemma JoinInjective(folder: string, a: string, b: string)
    requires Join(folder, a) == Join(folder, b)
    ensures a == b
  {
    RelativeJoin(folder, a);
    RelativeJoin(folder, b);
  }

  /** Joining a non-empty name keeps whether it is a `.h` name, so the joined candidate
      of an include is never a header path. */
  lemma {:induction false} JoinedHeaderName(folder: string, name: string)
    requires |name| >= 1
    ensures EndsWith(Join(folder, name), ".h") <==> EndsWith(name, ".h")
  {
    var p := Join(folder, name);
    if |name| >= 2 {
      assert p[|p| - 2..] == name[|name| - 2..];
    } else {
      assert p[|p| - 2] == '/';
    }
  }
}
