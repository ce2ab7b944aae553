/** The include extractor of `findDependentCFiles`: the global regular expression
    `/#include\s+["<](.+?)[">]/g` run with `exec` from `lastIndex` onwards, written out
    as functions over the file's text with JavaScript's meaning of `\s` and `.`. */
module IncludeLexer {
  import opened Wrappers

  const Directive: string := "#include"

  /** JavaScript's `\s`: the WhiteSpace and LineTerminator code points. */
  predicate IsSpace(ch: char)
  {
    || ch == '\t' || ch == '\n' || ch == '\U{000B}' || ch == '\U{000C}' || ch == '\r'
    || ch == ' ' || ch == '\U{00A0}' || ch == '\U{1680}'
    || ('\U{2000}' <= ch <= '\U{200A}')
    || ch == '\U{2028}' || ch == '\U{2029}' || ch == '\U{202F}' || ch == '\U{205F}'
    || ch == '\U{3000}' || ch == '\U{FEFF}'
  }

  /** The characters JavaScript's `.` does not match (no `s` flag). */
  predicate IsLineTerminator(ch: char)
  {
    ch == '\n' || ch == '\r' || ch == '\U{2028}' || ch == '\U{2029}'
  }

  /** `["<]` */
  predicate IsOpener(ch: char) { ch == '"' || ch == '<' }

  /** `[">]` */
  predicate IsCloser(ch: char) { ch == '"' || ch == '>' }

  /** No character of `text[from..to]` is a line terminator, so `.` matches each. */
  predicate NoLineBreak(text: string, from: nat, to: nat)
    requires from <= to <= |text|
  {
    forall i :: from <= i < to ==> !IsLineTerminator(text[i])
  }

  /** A match: `text[start..close + 1]` is the whole match (`match[0]`), `text[open]`
      the opening delimiter and `text[open + 1..close]` the header name (`match[1]`). */
  datatype Span = Span(start: nat, open: nat, close: nat)

  predicate WellFormed(text: string, m: Span)
  {
    m.start + |Directive| < m.open && m.open + 1 < m.close < |text|
  }

  /** `match[0]` */
  function Whole(text: string, m: Span): string
    requires WellFormed(text, m)
  {
    text[m.start..m.close + 1]
  }

  /** `match[1]` */
  function Header(text: string, m: Span): (h: string)
    requires WellFormed(text, m)
    ensures |h| >= 1
  {
    text[m.open + 1..m.close]
  }

  /** The regular expression, stated declaratively: the text matches it at `start` with
      the opening delimiter at `open` and the closing one at `close`. */
  predicate MatchesAt(text: string, start: nat, open: nat, close: nat)
  {
    && start + |Directive| < open < close < |text|
    && text[start..start + |Directive|] == Directive
    && (forall i :: start + |Directive| <= i < open ==> IsSpace(text[i]))
    && IsOpener(text[open])
    && open + 1 < close
    && NoLineBreak(text, open + 1, close)
    && IsCloser(text[close])
  }

  /** `\s+`: the first position at or after `i` that is not whitespace. */
  function SkipSpaces(text: string, i: nat): (j: nat)
    requires i <= |text|
    ensures i <= j <= |text|
    ensures forall k :: i <= k < j ==> IsSpace(text[k])
    ensures j == |text| || !IsSpace(text[j])
    decreases |text| - i
  {
    if i == |text| || !IsSpace(text[i]) then i else SkipSpaces(text, i + 1)
  }

  /** `(.+?)[">]` with the run starting at `k`: the closing delimiter nearest to `k`
      that follows at least one character and no line terminator. */
  function FindClose(text: string, k: nat): (r: Option<nat>)
    requires k <= |text|
    ensures r.Some? ==> k < r.value < |text| && IsCloser(text[r.value]) && NoLineBreak(text, k, r.value)
    ensures r.Some? ==> forall e :: k < e < r.value ==> !IsCloser(text[e])
    ensures r.None? ==> forall e :: k < e < |text| && IsCloser(text[e]) ==> !NoLineBreak(text, k, e)
    decreases |text| - k
  {
    if k == |text| || IsLineTerminator(text[k]) then None
    else if k + 1 < |text| && IsCloser(text[k + 1]) then Some(k + 1)
    else FindClose(text, k + 1)
  }

  /** The regular expression tried at exactly `start`, with the backtracking the engine
      does: `\s+` can only give back whitespace, which `["<]` never accepts, and the
      lazy `.+?` takes the shortest run that ends before a closer. */
  function MatchAt(text: string, start: nat): (r: Option<Span>)
    requires start <= |text|
    ensures r.Some? ==> r.value.start == start && WellFormed(text, r.value)
  {
    if !(start + |Directive| <= |text| && text[start..start + |Directive|] == Directive) then None
    else
      var open := SkipSpaces(text, start + |Directive|);
      if open == start + |Directive| || open == |text| || !IsOpener(text[open]) then None
      else
        match FindClose(text, open + 1)
        case None => None
        case Some(close) => Some(Span(start, open, close))
  }

  /** What MatchAt finds is a match of the regular expression, with the shortest header. */
  lemma {:induction false} MatchAtSound(text: string, start: nat)
    requires start <= |text| && MatchAt(text, start).Some?
    ensures var m := MatchAt(text, start).value;
      && MatchesAt(text, start, m.open, m.close)
      && forall e :: m.open + 1 < e < m.close ==> !MatchesAt(text, start, m.open, e)
  {
    var m := MatchAt(text, start).value;
    assert m.open == SkipSpaces(text, start + |Directive|);
    assert FindClose(text, m.open + 1) == Some(m.close);
  }

  /** Every match of the regular expression at `start` is found by MatchAt, with the same
      opening delimiter and a header no longer than the match's. */
  lemma {:induction false} MatchAtComplete(text: string, start: nat, open: nat, close: nat)
    requires MatchesAt(text, start, open, close)
    ensures MatchAt(text, start).Some?
    ensures MatchAt(text, start).value.open == open && MatchAt(text, start).value.close <= close
  {
    assert !IsSpace(text[open]);
  }

  /** `includeRegex.exec(text)` with `includeRegex.lastIndex == from`: the leftmost match
      starting at or after `from`, or None (`null`). */
  function Exec(text: string, from: nat): (r: Option<Span>)
    requires from <= |text|
    ensures r.Some? ==> from <= r.value.start && WellFormed(text, r.value)
    decreases |text| - from
  {
    var m := MatchAt(text, from);
    if m.Some? || from == |text| then m else Exec(text, from + 1)
  }

  /** Where Exec reports a match, the regular expression matches, */
  lemma {:induction false} ExecFound(text: string, from: nat)
    requires from <= |text| && Exec(text, from).Some?
    ensures MatchAt(text, Exec(text, from).value.start) == Exec(text, from)
    decreases |text| - from
  {
    if MatchAt(text, from).None? {
      ExecFound(text, from + 1);
    }
  }

  /** it matches nowhere between `from` and there, */
  lemma {:induction false} ExecLeftmost(text: string, from: nat)
    requires from <= |text| && Exec(text, from).Some?
    ensures forall p :: from <= p < Exec(text, from).value.start ==> MatchAt(text, p).None?
    decreases |text| - from
  {
    if MatchAt(text, from).None? {
      ExecLeftmost(text, from + 1);
    }
  }

  /** and when Exec reports nothing it matches nowhere from `from` on. */
  lemma {:induction false} ExecExhausted(text: string, from: nat)
    requires from <= |text| && Exec(text, from).None?
    ensures forall p :: from <= p <= |text| ==> MatchAt(text, p).None?
    decreases |text| - from
  {
    if from < |text| {
      ExecExhausted(text, from + 1);
    }
  }

  /** What the loop body reads from one `exec` result: `match[0]` and `match[1]`. */
  datatype Include = Include(whole: string, header: string)

  /** The results of successive `exec` calls from `lastIndex == pos` until the first
      `null`; each call resumes where the previous match ended. */
  function IncludesFrom(text: string, pos: nat): (r: seq<Include>)
    requires pos <= |text|
    ensures forall inc :: inc in r ==> |inc.header| >= 1
    decreases |text| - pos
  {
    match Exec(text, pos)
    case None => []
    case Some(m) => [Include(Whole(text, m), Header(text, m))] + IncludesFrom(text, m.close + 1)
  }

  /** The loop sees no include at all exactly when the regular expression matches
      nowhere from `pos` on. */
  lemma {:induction false} IncludesFromEmpty(text: string, pos: nat)
    requires pos <= |text|
    ensures IncludesFrom(text, pos) == [] <==> forall p :: pos <= p <= |text| ==> MatchAt(text, p).None?
  {
    match Exec(text, pos)
    case None =>
      ExecExhausted(text, pos);
    case Some(m) =>
      ExecFound(text, pos);
      assert MatchAt(text, m.start).Some?;
  }

  /** The loop ends when `exec` finds nothing more, */
  lemma IncludesFromEnd(text: string, pos: nat)
    requires pos <= |text| && Exec(text, pos).None?
    ensures IncludesFrom(text, pos) == []
  {
  }

  /** and otherwise the include it finds heads the includes from `pos` on. */
  lemma IncludesFromNext(text: string, pos: nat, m: Span)
    requires pos <= |text| && Exec(text, pos) == Some(m)
    ensures IncludesFrom(text, pos) == [Include(Whole(text, m), Header(text, m))] + IncludesFrom(text, m.close + 1)
  {
  }

  /** What Exec reports is a match of the regular expression. */
  lemma ExecSound(text: string, pos: nat)
    requires pos <= |text| && Exec(text, pos).Some?
    ensures var m := Exec(text, pos).value;
      pos <= m.start && MatchesAt(text, m.start, m.open, m.close)
  {
    ExecFound(text, pos);
    MatchAtSound(text, Exec(text, pos).value.start);
  }

  /** A non-empty run of includes from `pos` starts with the leftmost match `m` of the
      regular expression at or after `pos`, and goes on from the end of `m`. */
  lemma IncludesFromHead(text: string, pos: nat) returns (m: Span)
    requires pos <= |text| && IncludesFrom(text, pos) != []
    ensures pos <= m.start && m.close < |text| && MatchesAt(text, m.start, m.open, m.close)
    ensures forall p :: pos <= p < m.start ==> MatchAt(text, p).None?
    ensures IncludesFrom(text, pos) == [Include(Whole(text, m), Header(text, m))] + IncludesFrom(text, m.close + 1)
  {
    if Exec(text, pos).None? {
      IncludesFromEnd(text, pos);
      assert false;
    }
    m := Exec(text, pos).value;
    IncludesFromNext(text, pos, m);
    ExecSound(text, pos);
    ExecLeftmost(text, pos);
  }

  /** Every include directive the scanner sees in a file, in order. */
  function Includes(text: string): seq<Include>
  {
    IncludesFrom(text, 0)
  }

  /** The whole match contains `<` — the test `match[0].includes('<')` that skips a
      system header. */
  predicate IsSystemInclude(inc: Include)
  {
    '<' in inc.whole
  }

  /** An angle-bracket include always passes that test. */
  lemma AngleBracketIsSystem(text: string, m: Span)
    requires WellFormed(text, m) && text[m.open] == '<'
    ensures IsSystemInclude(Include(Whole(text, m), Header(text, m)))
  {
    assert Whole(text, m)[m.open - m.start] == '<';
  }
}
