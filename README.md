# Makefile generation for a C project (VS Code `cCompiler` extension)

This project models the core of a VS Code extension that builds a single-folder C
project. Given an entry file such as `main.c`, the extension does two things:

- It follows the file's local `#include "x.h"` directives to the same-stem `x.c` files
  that exist in the folder, recursively. A visited set guards against include cycles.
- It writes a fixed 17-line Makefile that compiles and links every source it found.

The model has seven modules:

- `Wrappers` holds `Option`.
- `Paths` models `path.join`/`path.relative` over one folder and the two anchored
  `replace` calls: `.h` to `.c`, and stripping `.c`.
- `FileSystem` models the disk as a map from path to contents. A key that is present
  means `fs.existsSync` is true. A `None` value means `fs.readFileSync` throws.
- `IncludeLexer` is an exact model of the global regular expression
  `/#include\s+["<](.+?)[">]/g`:
  - the JavaScript `\s` set;
  - `.` excluding the four line terminators;
  - the lazy shortest header;
  - `exec` resuming at `lastIndex`.
- `Resolver` holds three things:
  - `Scan`/`Visit`/`ScanIncludes` specify one call of `findDependentCFiles`.
  - The class `IncludeScanner` holds the two JavaScript Sets as mutable fields. Its
    recursive method runs the source's `while`/`exec` loop and is proved equal to `Scan`.
  - The `cFilesSet` Set is a sequence in insertion order, because `Array.from` lists it
    that way in `SRCS`.
- `ResolverProofs` characterises the whole walk by reachability in the include graph.
- `Makefile` renders the lines and joins them with newlines. `CreateMakefile` runs the
  scanner and then renders. When no input contains a newline, splitting the text at
  newlines gives the 17 lines back. Looking up each `NAME=` binding then gives:
  - `CC`: the compiler as given;
  - `CFLAGS` and `LIBS`: the flags and libraries only as one space-joined string each;
  - `MAIN`: the entry name without its trailing `.c`;
  - `SRCS`: the space-joined sources. Split at spaces, this is the source list again
    only when no name holds a space.

The scanner also keeps a ghost trace of the paths it asks the filesystem to read. This
trace states "each file is read at most once" and "headers are never read".

`createMakefile` (extension.js:41-72) accepts any entry name. `MAIN` is the name
unchanged when it has no trailing `.c`. The only `.c` check is in the editor command
handler (extension.js:118), which is not part of this model. So `CreateMakefile` has no
precondition on the entry name.

A quoted include whose name contains `<` (such as `#include "a<b.h"`) is also skipped.
That is because the test is `match[0].includes('<')`. The model keeps that behaviour.

## Model

| member | source | states |
|---|---|---|
| Paths.ReplaceTrailing | extension.js:29 | an end-anchored replace changes only a trailing occurrence of the suffix and keeps the stem before it; any other string is left unchanged |
| Paths.SourceForHeaderShape | extension.js:29 | `stem.h` becomes `stem.c` with the same stem; other names are kept; the candidate never ends in `.h` |
| Paths.StripSourceExtensionInverse | extension.js:55 | `MAIN` plus `.c` is the entry file again when it ended in `.c`; otherwise `MAIN` is the entry name unchanged |
| Paths.RelativeJoin | extension.js:30-32 | `path.relative(folder, path.join(folder, name))` is `name` |
| Paths.JoinRelative | extension.js:30-32 | joining the relative name of a path inside the folder gives the path back |
| Paths.JoinInjective | extension.js:30-33 | distinct names join to distinct paths, so keying the visited set on joined paths loses nothing |
| Paths.JoinedHeaderName | extension.js:29-30 | a joined non-empty name ends in `.h` exactly when the name does |
| FileSystem.ReadFile | extension.js:16-21 | a read of a missing path always fails (throws); on an existing path the read gives what the disk map holds for it, which is how the map defines the file system |
| IncludeLexer.Header | extension.js:28 | `match[1]` is never empty (`.+?` needs at least one character) |
| IncludeLexer.SkipSpaces | extension.js:23 | `\s+` stops at the first non-whitespace character, with only whitespace skipped |
| IncludeLexer.FindClose | extension.js:23 | `(.+?)[">]` ends at the nearest closer after at least one character and no line terminator; when none is reachable, every later closer has a line break before it |
| IncludeLexer.MatchAt | extension.js:23 | positions well formed: the match begins at `start`, the opener follows `#include` and whitespace, the closer follows a non-empty header; see MatchAtSound |
| IncludeLexer.MatchAtSound | extension.js:23 | what MatchAt finds satisfies the regular expression and has the shortest header |
| IncludeLexer.MatchAtComplete | extension.js:23 | every match of the regular expression at `start` is found by MatchAt, with the same opener and a header no longer |
| IncludeLexer.Exec | extension.js:25 | `exec` from `lastIndex` returns a well-formed match at or after `lastIndex` |
| IncludeLexer.ExecFound | extension.js:25 | the regular expression matches where `exec` reports it |
| IncludeLexer.ExecLeftmost | extension.js:25 | no match starts between `lastIndex` and the reported match |
| IncludeLexer.ExecExhausted | extension.js:25 | when `exec` returns `null` there is no match anywhere from `lastIndex` on |
| IncludeLexer.ExecSound | extension.js:25 | what `exec` returns is a match of the regular expression at or after `lastIndex` |
| IncludeLexer.IncludesFrom | extension.js:24-25 | every include the loop sees has a non-empty header |
| IncludeLexer.IncludesFromEmpty | extension.js:24-25 | the loop sees no include exactly when the regular expression matches nowhere from `lastIndex` on |
| IncludeLexer.IncludesFromHead | extension.js:24-25 | when the loop sees an include, it comes from the leftmost match at or after `lastIndex`, and the loop goes on from the end of that match |
| IncludeLexer.AngleBracketIsSystem | extension.js:26-27 | an include opened with `<` is skipped as a system header |
| Resolver.Add | extension.js:32 | `Set.add` keeps the old elements in place, adds exactly `x`, and keeps the elements distinct |
| Resolver.IncludeTarget | extension.js:27-31 | an include leads to its joined `.c` candidate exactly when it is not a system include and the candidate exists |
| Resolver.Scan | extension.js:11-21 | a visited path leaves both Sets unchanged; otherwise the path is marked and read first; a failed read only marks it; nothing is ever removed |
| Resolver.Visit | extension.js:27-34 | a system include or a missing candidate changes nothing; a kept one records the candidate's relative name and scans the candidate |
| Resolver.TargetsOf | extension.js:31 | every edge of the include graph leads to an existing file |
| Resolver.UnscannedDrops | extension.js:12-13 | marking a new existing path strictly shrinks the set of existing unscanned paths, so the recursion terminates on cycles |
| Resolver.IncludeScanner.constructor | extension.js:47-49 | the walk starts with `cFiles = {mainFile}` and an empty visited set |
| Resolver.IncludeScanner.FindDependentCFiles | extension.js:11-36 | the in-place method leaves both Sets and the read trace exactly as `Scan` specifies |
| ResolverProofs.ScanClosed | extension.js:11-36 | a call keeps every scanned file outside the calls still on the stack finished: each file its kept includes lead to is scanned and its relative name collected |
| ResolverProofs.ScanSound | extension.js:11-36 | a call scans only files reachable from the entry and collects only their relative names |
| ResolverProofs.ScanUnique | extension.js:11-36 | a call keeps the collected names distinct, reads each path once, and reads exactly the scanned paths |
| ResolverProofs.ResolveInvariants | extension.js:47-49 | the resolution from the seed is closed, sound and duplicate-free |
| ResolverProofs.ResolveScansReachable | extension.js:12-13 | a path is scanned exactly when it is reachable from the entry |
| ResolverProofs.ResolveCollectsEveryReachable | extension.js:31-33 | every reachable file's folder-relative name is collected |
| ResolverProofs.ResolveCollectsReachable | extension.js:47-49 | the resolved sources are the entry first, then the relative names of exactly the reachable files, none twice |
| ResolverProofs.ResolveReadsEachOnce | extension.js:12-17 | each file is read at most once, and the files read are exactly the reachable ones |
| ResolverProofs.ResolveNeverReadsHeaders | extension.js:28-33 | apart from the entry, no path read ends in `.h` |
| ResolverProofs.SystemIncludesChangeNothing | extension.js:27 | a run of system includes reads nothing, adds nothing, and contributes no graph edges |
| ResolverProofs.ResolveOnlySystemIncludes | extension.js:25-27 | an entry with only system includes resolves to itself alone, after a single read |
| ResolverProofs.ResolveUnreadableEntry | extension.js:16-21 | an unreadable entry resolves to itself alone, without error |
| Makefile.ConfigFrom | extension.js:42-45 | each unset setting takes its default (`gcc`, `-Wall -g`, no libraries); each set one is used as given |
| Makefile.DefaultSettingsLines | extension.js:42-54 | with no setting made, the first three lines are `CC=gcc`, `CFLAGS=-Wall -g` and `LIBS=` |
| Makefile.JoinWith | extension.js:44 | `join` of no parts is empty; the result starts with the first part; when no part contains the separator, the result contains it exactly when there are two or more parts |
| Makefile.Split | extension.js:71 | splitting yields at least one piece and no piece contains the separator |
| Makefile.SplitJoin | extension.js:71 | splitting a `join` of one or more parts gives the parts back when no part contains the separator (`join` of no parts splits into one empty piece) |
| Makefile.MakefileSplitsIntoLines | extension.js:51-71 | the text split at newlines is exactly the 17 lines, when no input contains a newline |
| Makefile.MakefileBindings | extension.js:52-56 | CC, CFLAGS, LIBS, MAIN and SRCS read back as the compiler, the space-joined flags and libraries, the entry without `.c`, and the space-joined sources |
| Makefile.MakefileListsReachableSources | extension.js:48-56 | `SRCS` starts with the entry file; when no source name holds a space, read word by word it lists each reachable source exactly once |
| Makefile.CreateMakefile | extension.js:41-72 | the generated text is the rendering of the configuration, the entry name and the resolved sources, and so is a function of them and of the disk |

## Left out

- `runMake` and `compileFileDirect` (extension.js:77-107) are left out. They run external processes through `child_process`.
- `activate` and `deactivate` (extension.js:112-156) are left out. That includes the editor lookup, the `.c` check at extension.js:118, dialogs, progress, and writing the Makefile to disk. All of these are VS Code plumbing.
- `vscode.workspace.getConfiguration` is not modelled. The three settings are a `Settings` value, and `ConfigFrom` applies the `cfg.get` defaults. Settings of the wrong type are not modelled.
- `console.error` (extension.js:19) is not modelled, because logging has no effect on the result.
- Node path normalisation is not modelled: separators, `..`, absolute header names and repeated slashes. `Join` is `folder + "/" + name`, and `Relative` strips a leading `folder/`.
- Stack overflow is not modelled. `findDependentCFiles` recurses once per file in an include chain (extension.js:33), without bound. A deep enough chain overflows the JavaScript call stack, and the `RangeError` escapes `createMakefile`. The model has unbounded recursion instead.
- File contents are not decoded as UTF-8. A file's text is given directly as a string, and a read that throws is `None`.
- `make`'s own evaluation of the generated rules is not computed. That includes the `$(SRCS:.c=.o)` substitution. `Lookup` reads only the simple `NAME=value` lines.
- Resolver.ScanIncludes: its own contract states only that nothing is removed. What the loop computes is stated by the `Resolve…` lemmas and by `FindDependentCFiles`' postcondition.
