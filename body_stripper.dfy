/**
 * The body stripper of main.py: `remove_function_bodies` rewrites a C-like
 * text with one regular-expression substitution. The pattern is: at a word
 * boundary, a word, whitespace, a word, optional whitespace, a parenthesised
 * list with no `)` inside, optional whitespace, and a braced block with no
 * `}` inside; everything before the block is kept and the block becomes `;`.
 * So every "type name(params) { body }" becomes "type name(params) ;".
 *
 * The regular expression is modelled twice: `PatternAt` says declaratively
 * what it means for the pattern to match at a position (the split points of
 * the match are explicit), and `MatchAt` is the deterministic matcher.  Every
 * quantifier of the pattern is followed by a character outside its own class,
 * so there is at most one way to match from a given start (`MatchAtComplete`).
 * `Strip` is the left-to-right rewriting scan of `re.sub`; `StripIsSplice`
 * shows that it replaces exactly the leftmost non-overlapping matches.
 */
module BodyStripper {
  import opened Wrappers

  /** Python's `\w`, approximated on ASCII: letters, digits and underscore. */
  predicate IsWord(c: char) {
    ('a' <= c <= 'z') || ('A' <= c <= 'Z') || ('0' <= c <= '9') || c == '_'
  }

  /** Python's `\s`, approximated on ASCII: space, \t, \n, \v, \f and \r. */
  predicate IsSpace(c: char) {
    c == ' ' || ('\t' <= c <= '\r')
  }

  /** The character classes the pattern repeats: `\w`, `\s`, `[^)]` and `[^}]`. */
  datatype Class = Word | Space | NotCloseParen | NotCloseBrace

  predicate In(cls: Class, c: char) {
    match cls
    case Word => IsWord(c)
    case Space => IsSpace(c)
    case NotCloseParen => c != ')'
    case NotCloseBrace => c != '}'
  }

  /** Every character of `s[a..b]` is in the class `cls`. */
  predicate All(s: string, a: nat, b: nat, cls: Class)
    requires a <= b <= |s|
  {
    forall k :: a <= k < b ==> In(cls, s[k])
  }

  /** Python's `\b`: exactly one of the characters around position `i` is a word character. */
  predicate AtWordBoundary(s: string, i: nat) {
    (0 < i <= |s| && IsWord(s[i - 1])) != (i < |s| && IsWord(s[i]))
  }

  /**
   * A match of the pattern at `start`, given by its split points:
   * s[start..typeEnd] is `\w+`, s[typeEnd..nameStart] is `\s+`,
   * s[nameStart..nameEnd] is `\w+`, s[nameEnd..open] is `\s*`,
   * s[open] is `(`, s[open+1..close] is `[^)]*`, s[close] is `)`,
   * s[close+1..brace] is `\s*`, s[brace] is `{`, s[brace+1..end-1] is
   * `[^}]*` and s[end-1] is `}`.  Group 1, the header, is s[start..brace].
   */
  datatype Match = Match(start: nat, typeEnd: nat, nameStart: nat, nameEnd: nat,
                         open: nat, close: nat, brace: nat, end: nat)

  /** The regular expression matches `s[i..m.end]` with the split points of `m`. */
  predicate PatternAt(s: string, i: nat, m: Match) {
    m.start == i &&
    i < m.typeEnd < m.nameStart < m.nameEnd <= m.open < m.close < m.brace < m.end - 1 &&
    m.end <= |s| &&
    AtWordBoundary(s, i) &&
    All(s, i, m.typeEnd, Word) &&
    All(s, m.typeEnd, m.nameStart, Space) &&
    All(s, m.nameStart, m.nameEnd, Word) &&
    All(s, m.nameEnd, m.open, Space) &&
    s[m.open] == '(' &&
    All(s, m.open + 1, m.close, NotCloseParen) &&
    s[m.close] == ')' &&
    All(s, m.close + 1, m.brace, Space) &&
    s[m.brace] == '{' &&
    All(s, m.brace + 1, m.end - 1, NotCloseBrace) &&
    s[m.end - 1] == '}'
  }

  /** The pattern matches at position `i` in some way. */
  ghost predicate MatchesAt(s: string, i: nat) {
    exists m :: PatternAt(s, i, m)
  }

  /** The longest run of characters of class `cls` starting at `i` ends at `j`. */
  function Span(s: string, i: nat, cls: Class): (j: nat)
    requires i <= |s|
    ensures i <= j <= |s|
    decreases |s| - i
  {
    if i < |s| && In(cls, s[i]) then Span(s, i + 1, cls) else i
  }

  /** The span is a run of the class, followed by a character outside it or by the end. */
  lemma {:induction false} SpanRun(s: string, i: nat, cls: Class)
    requires i <= |s|
    ensures All(s, i, Span(s, i, cls), cls)
    ensures Span(s, i, cls) == |s| || !In(cls, s[Span(s, i, cls)])
    decreases |s| - i
  {
    if i < |s| && In(cls, s[i]) {
      SpanRun(s, i + 1, cls);
    }
  }

  /**
   * The deterministic matcher: the match of the pattern that starts at `i`,
   * if any.  Each greedy run is taken whole, because the character that
   * follows it must lie outside its class.
   */
  function MatchAt(s: string, i: nat): (r: Option<Match>)
    requires i <= |s|
    ensures r.Some? ==> r.value.start == i < r.value.brace && r.value.brace + 1 < r.value.end <= |s|
  {
    if !AtWordBoundary(s, i) then None
    else
      var typeEnd := Span(s, i, Word);
      if typeEnd == i then None
      else
        var nameStart := Span(s, typeEnd, Space);
        if nameStart == typeEnd then None
        else
          var nameEnd := Span(s, nameStart, Word);
          if nameEnd == nameStart then None
          else
            var open := Span(s, nameEnd, Space);
            if open == |s| || s[open] != '(' then None
            else
              var close := Span(s, open + 1, NotCloseParen);
              if close == |s| then None
              else
                var brace := Span(s, close + 1, Space);
                if brace == |s| || s[brace] != '{' then None
                else
                  var bodyEnd := Span(s, brace + 1, NotCloseBrace);
                  if bodyEnd == |s| then None
                  else Some(Match(i, typeEnd, nameStart, nameEnd, open, close, brace, bodyEnd + 1))
  }

  /** Every match the matcher reports is a match of the pattern. */
  lemma MatchAtSound(s: string, i: nat)
    requires i <= |s|
    ensures MatchAt(s, i).Some? ==> PatternAt(s, i, MatchAt(s, i).value)
  {
    if MatchAt(s, i).Some? {
      MatchAtFields(s, i);
      RunsMatch(s, i, MatchAt(s, i).value);
    }
  }

  /** Split points at the ends of the pattern's greedy runs, with `(`, `)`, `{` and `}` in place, are a match. */
  lemma RunsMatch(s: string, i: nat, m: Match)
    requires i <= |s| && m.start == i && AtWordBoundary(s, i)
    requires m.typeEnd == Span(s, i, Word) && i < m.typeEnd
    requires m.nameStart == Span(s, m.typeEnd, Space) && m.typeEnd < m.nameStart
    requires m.nameEnd == Span(s, m.nameStart, Word) && m.nameStart < m.nameEnd
    requires m.open == Span(s, m.nameEnd, Space) && m.open < |s| && s[m.open] == '('
    requires m.close == Span(s, m.open + 1, NotCloseParen) && m.close < |s|
    requires m.brace == Span(s, m.close + 1, Space) && m.brace < |s| && s[m.brace] == '{'
    requires m.end - 1 == Span(s, m.brace + 1, NotCloseBrace) && m.end - 1 < |s|
    ensures PatternAt(s, i, m)
  {
    SpanRun(s, i, Word);
    assert All(s, i, m.typeEnd, Word);
    SpanRun(s, m.typeEnd, Space);
    assert All(s, m.typeEnd, m.nameStart, Space);
    SpanRun(s, m.nameStart, Word);
    assert All(s, m.nameStart, m.nameEnd, Word);
    SpanRun(s, m.nameEnd, Space);
    assert All(s, m.nameEnd, m.open, Space);
    SpanRun(s, m.open + 1, NotCloseParen);
    assert All(s, m.open + 1, m.close, NotCloseParen) && s[m.close] == ')';
    SpanRun(s, m.close + 1, Space);
    assert All(s, m.close + 1, m.brace, Space);
    SpanRun(s, m.brace + 1, NotCloseBrace);
    assert All(s, m.brace + 1, m.end - 1, NotCloseBrace) && s[m.end - 1] == '}';
  }

  /** The split points the matcher reports are the ends of its greedy runs. */
  lemma MatchAtFields(s: string, i: nat)
    requires i <= |s| && MatchAt(s, i).Some?
    ensures var m := MatchAt(s, i).value;
      m.start == i && AtWordBoundary(s, i) &&
      m.typeEnd == Span(s, i, Word) && i < m.typeEnd &&
      m.nameStart == Span(s, m.typeEnd, Space) && m.typeEnd < m.nameStart &&
      m.nameEnd == Span(s, m.nameStart, Word) && m.nameStart < m.nameEnd &&
      m.open == Span(s, m.nameEnd, Space) && m.open < |s| && s[m.open] == '(' &&
      m.close == Span(s, m.open + 1, NotCloseParen) && m.close < |s| &&
      m.brace == Span(s, m.close + 1, Space) && m.brace < |s| && s[m.brace] == '{' &&
      m.end - 1 == Span(s, m.brace + 1, NotCloseBrace) && m.end - 1 < |s|
  {
  }

  /** A run that is all of class `cls` and is followed by a character outside it is the span. */
  lemma SpanIs(s: string, i: nat, j: nat, cls: Class)
    requires i <= j <= |s|
    requires All(s, i, j, cls)
    requires j == |s| || !In(cls, s[j])
    ensures Span(s, i, cls) == j
    decreases j - i
  {
    if i < j {
      SpanIs(s, i + 1, j, cls);
    }
  }

  /**
   * The matcher finds every match of the pattern, and the match at a given
   * start is unique: there is no backtracking choice in the pattern.
   */
  lemma MatchAtComplete(s: string, i: nat, m: Match)
    requires PatternAt(s, i, m)
    ensures MatchAt(s, i) == Some(m)
  {
    HeaderSpans(s, i, m);
    TailSpans(s, i, m);
  }

  /** The greedy runs of the header stop where the split points of a match are. */
  lemma HeaderSpans(s: string, i: nat, m: Match)
    requires PatternAt(s, i, m)
    ensures Span(s, i, Word) == m.typeEnd
    ensures Span(s, m.typeEnd, Space) == m.nameStart
    ensures Span(s, m.nameStart, Word) == m.nameEnd
    ensures Span(s, m.nameEnd, Space) == m.open
  {
    assert In(Space, s[m.typeEnd]);
    SpanIs(s, i, m.typeEnd, Word);
    assert In(Word, s[m.nameStart]);
    SpanIs(s, m.typeEnd, m.nameStart, Space);
    assert m.nameEnd < m.open ==> In(Space, s[m.nameEnd]);
    SpanIs(s, m.nameStart, m.nameEnd, Word);
    SpanIs(s, m.nameEnd, m.open, Space);
  }

  /** The greedy runs after `(` stop where the split points of a match are. */
  lemma TailSpans(s: string, i: nat, m: Match)
    requires PatternAt(s, i, m)
    ensures Span(s, m.open + 1, NotCloseParen) == m.close
    ensures Span(s, m.close + 1, Space) == m.brace
    ensures Span(s, m.brace + 1, NotCloseBrace) == m.end - 1
  {
    SpanIs(s, m.open + 1, m.close, NotCloseParen);
    SpanIs(s, m.close + 1, m.brace, Space);
    SpanIs(s, m.brace + 1, m.end - 1, NotCloseBrace);
  }

  /** `MatchAt` decides the pattern: it fails exactly where no match starts. */
  lemma MatchAtNoneIff(s: string, i: nat)
    requires i <= |s|
    ensures MatchAt(s, i).None? <==> !MatchesAt(s, i)
  {
    MatchAtSound(s, i);
    if MatchesAt(s, i) {
      var m :| PatternAt(s, i, m);
      MatchAtComplete(s, i, m);
    }
  }

  /**
   * What a match found by the matcher looks like: it starts at a word
   * character that begins the text or follows a non-word character, its
   * parameter list ends at the first `)` after the `(`, and its body ends at
   * the first `}` after the `{`.
   */
  lemma MatchShape(s: string, i: nat)
    requires i <= |s| && MatchAt(s, i).Some?
    ensures var m := MatchAt(s, i).value;
      IsWord(s[i]) && (i == 0 || !IsWord(s[i - 1])) &&
      s[m.open] == '(' && ')' !in s[m.open + 1..m.close] && s[m.close] == ')' &&
      s[m.brace] == '{' && '}' !in s[m.brace + 1..m.end - 1] && s[m.end - 1] == '}'
  {
    var m := MatchAt(s, i).value;
    MatchAtSound(s, i);
    assert In(Word, s[i]);
    forall k | m.open + 1 <= k < m.close ensures s[k] != ')' {
      assert In(NotCloseParen, s[k]);
    }
    forall k | m.brace + 1 <= k < m.end - 1 ensures s[k] != '}' {
      assert In(NotCloseBrace, s[k]);
    }
  }

  /**
   * The scan of `re.sub` from position `i`: at each position, a match is
   * replaced by its header followed by `;` and the scan resumes after the
   * match; otherwise one character is copied.
   */
  function StripFrom(s: string, i: nat): (r: string)
    requires i <= |s|
    ensures |r| <= |s| - i
    decreases |s| - i
  {
    if i == |s| then []
    else
      match MatchAt(s, i)
      case Some(m) => s[i..m.brace] + ";" + StripFrom(s, m.end)
      case None => [s[i]] + StripFrom(s, i + 1)
  }

  /** `remove_function_bodies` without its file I/O. */
  function Strip(s: string): (r: string)
    ensures |r| <= |s|
  {
    StripFrom(s, 0)
  }

  /**
   * `ms` lists, in order, the matches that a leftmost-first, non-overlapping
   * search of `s` from `i` finds: no match starts before the first one, and
   * the rest are found the same way from where it ends.
   */
  ghost predicate LeftmostMatches(s: string, i: nat, ms: seq<Match>)
    requires i <= |s|
    decreases |ms|
  {
    if ms == [] then
      forall k :: i <= k < |s| ==> !MatchesAt(s, k)
    else
      var m := ms[0];
      i <= m.start && PatternAt(s, m.start, m) &&
      (forall k :: i <= k < m.start ==> !MatchesAt(s, k)) &&
      LeftmostMatches(s, m.end, ms[1..])
  }

  /** `ms` is a list of ordered, non-overlapping spans of `s[i..]`. */
  predicate Spans(n: nat, i: nat, ms: seq<Match>)
    decreases |ms|
  {
    i <= n &&
    (ms != [] ==>
      i <= ms[0].start <= ms[0].brace < ms[0].end <= n &&
      Spans(n, ms[0].end, ms[1..]))
  }

  /**
   * The reference rewrite: text between the spans is copied unchanged and in
   * order, and each span becomes its header (up to its `{`) followed by `;`.
   */
  function Splice(s: string, i: nat, ms: seq<Match>): string
    requires Spans(|s|, i, ms)
    decreases |ms|
  {
    if ms == [] then s[i..]
    else
      var m := ms[0];
      s[i..m.start] + s[m.start..m.brace] + ";" + Splice(s, m.end, ms[1..])
  }

  /** With no match anywhere from `i` on, the scan copies the rest of the text. */
  lemma {:induction false} NoMatchCopies(s: string, i: nat)
    requires i <= |s|
    requires forall k :: i <= k < |s| ==> !MatchesAt(s, k)
    ensures StripFrom(s, i) == s[i..]
    decreases |s| - i
  {
    if i < |s| {
      MatchAtNoneIff(s, i);
      NoMatchCopies(s, i + 1);
    }
  }

  /** The scan's own matches are ordered, non-overlapping spans. */
  lemma {:induction false} ScanMatchesSpans(s: string, i: nat)
    requires i <= |s|
    ensures Spans(|s|, i, ScanMatches(s, i))
    decreases |s| - i
  {
    if i < |s| {
      match MatchAt(s, i)
      case Some(m) =>
        ScanMatchesSpans(s, m.end);
        assert ScanMatches(s, i)[1..] == ScanMatches(s, m.end);
      case None =>
        ScanMatchesSpans(s, i + 1);
    }
  }

  /** The scan's output is the reference rewrite of the scan's own matches. */
  lemma {:induction false} StripFromSplicesScan(s: string, i: nat)
    requires i <= |s|
    ensures Spans(|s|, i, ScanMatches(s, i))
    ensures StripFrom(s, i) == Splice(s, i, ScanMatches(s, i))
    decreases |s| - i
  {
    ScanMatchesSpans(s, i);
    if i < |s| {
      match MatchAt(s, i)
      case Some(m) =>
        StripFromSplicesScan(s, m.end);
        assert ScanMatches(s, i) == [m] + ScanMatches(s, m.end);
        SpliceTake(s, m, ScanMatches(s, m.end));
      case None =>
        StripFromSplicesScan(s, i + 1);
        assert ScanMatches(s, i) == ScanMatches(s, i + 1);
        SpliceCopy(s, i, ScanMatches(s, i));
    }
  }

  /** At a span, the reference rewrite emits its header and `;` and resumes after it. */
  lemma SpliceTake(s: string, m: Match, ms: seq<Match>)
    requires m.start <= m.brace < m.end <= |s| && Spans(|s|, m.end, ms)
    ensures Spans(|s|, m.start, [m] + ms)
    ensures Splice(s, m.start, [m] + ms) == s[m.start..m.brace] + ";" + Splice(s, m.end, ms)
  {
    assert ([m] + ms)[1..] == ms;
    assert s[m.start..m.start] == [];
  }

  /** Before the first span, the reference rewrite copies one character. */
  lemma SpliceCopy(s: string, i: nat, ms: seq<Match>)
    requires i < |s| && Spans(|s|, i + 1, ms)
    ensures Spans(|s|, i, ms)
    ensures Splice(s, i, ms) == [s[i]] + Splice(s, i + 1, ms)
  {
    if ms == [] {
      assert [s[i]] + s[i + 1..] == s[i..];
    } else {
      SpliceCopyBefore(s, i, ms);
    }
  }

  /** `SpliceCopy` when a span follows: the copied character joins the text before it. */
  lemma SpliceCopyBefore(s: string, i: nat, ms: seq<Match>)
    requires i < |s| && Spans(|s|, i + 1, ms) && ms != []
    ensures Spans(|s|, i, ms)
    ensures Splice(s, i, ms) == [s[i]] + Splice(s, i + 1, ms)
  {
    var m := ms[0];
    var a, b, d := s[i + 1..m.start], s[m.start..m.brace], Splice(s, m.end, ms[1..]);
    assert Splice(s, i + 1, ms) == a + b + ";" + d;
    Regroup([s[i]], a, b, ";", d);
    assert [s[i]] + a == s[i..m.start];
  }

  /** Prepending to a concatenation of four parts. */
  lemma Regroup(p: string, a: string, b: string, c: string, d: string)
    ensures p + (a + b + c + d) == p + a + b + c + d
  {
  }

  /** The matches that the scan of `re.sub` replaces, from position `i` on. */
  function ScanMatches(s: string, i: nat): seq<Match>
    requires i <= |s|
    decreases |s| - i
  {
    if i == |s| then []
    else
      match MatchAt(s, i)
      case Some(m) => [m] + ScanMatches(s, m.end)
      case None => ScanMatches(s, i + 1)
  }

  /** The scan finds the leftmost non-overlapping matches. */
  lemma {:induction false} ScanMatchesLeftmost(s: string, i: nat)
    requires i <= |s|
    ensures LeftmostMatches(s, i, ScanMatches(s, i))
    decreases |s| - i
  {
    if i < |s| {
      MatchAtNoneIff(s, i);
      match MatchAt(s, i)
      case Some(m) =>
        MatchAtSound(s, i);
        ScanMatchesLeftmost(s, m.end);
        LeftmostCons(s, i, m, ScanMatches(s, m.end));
      case None =>
        ScanMatchesLeftmost(s, i + 1);
        LeftmostSkip(s, i, ScanMatches(s, i + 1));
    }
  }

  /** A match at `i` followed by the leftmost matches after it are the leftmost matches from `i`. */
  lemma LeftmostCons(s: string, i: nat, m: Match, ms: seq<Match>)
    requires m.start == i && i < m.end <= |s| && PatternAt(s, i, m) && LeftmostMatches(s, m.end, ms)
    ensures LeftmostMatches(s, i, [m] + ms)
  {
    assert ([m] + ms)[1..] == ms;
  }

  /** Where the pattern does not match at `i`, the leftmost matches from `i + 1` are those from `i`. */
  lemma LeftmostSkip(s: string, i: nat, ms: seq<Match>)
    requires i < |s| && !MatchesAt(s, i) && LeftmostMatches(s, i + 1, ms)
    ensures LeftmostMatches(s, i, ms)
  {
  }

  /** The first of two leftmost match lists cannot start before the second. */
  lemma FirstStartsAgree(s: string, i: nat, ms1: seq<Match>, ms2: seq<Match>)
    requires i <= |s|
    requires LeftmostMatches(s, i, ms1) && LeftmostMatches(s, i, ms2)
    ensures ms1 == [] <==> ms2 == []
    ensures ms1 != [] ==> ms1[0] == ms2[0]
  {
    if ms1 != [] && ms2 != [] {
      var m1, m2 := ms1[0], ms2[0];
      if m1.start < m2.start {
        assert MatchesAt(s, m1.start);
      } else if m2.start < m1.start {
        assert MatchesAt(s, m2.start);
      } else {
        MatchAtComplete(s, m1.start, m1);
        MatchAtComplete(s, m2.start, m2);
      }
    } else if ms1 != [] {
      assert MatchesAt(s, ms1[0].start);
    } else if ms2 != [] {
      assert MatchesAt(s, ms2[0].start);
    }
  }

  /** The leftmost non-overlapping matches are unique. */
  lemma {:induction false} LeftmostMatchesUnique(s: string, i: nat, ms1: seq<Match>, ms2: seq<Match>)
    requires i <= |s|
    requires LeftmostMatches(s, i, ms1) && LeftmostMatches(s, i, ms2)
    ensures ms1 == ms2
    decreases |ms1|
  {
    FirstStartsAgree(s, i, ms1, ms2);
    if ms1 != [] {
      LeftmostMatchesUnique(s, ms1[0].end, ms1[1..], ms2[1..]);
    }
  }

  /**
   * The scan replaces exactly the leftmost non-overlapping matches: for the
   * list `ms` of them, the output is the reference rewrite of `ms`.
   */
  lemma StripIsSplice(s: string, ms: seq<Match>)
    requires LeftmostMatches(s, 0, ms)
    ensures Spans(|s|, 0, ms)
    ensures Strip(s) == Splice(s, 0, ms)
  {
    ScanMatchesLeftmost(s, 0);
    LeftmostMatchesUnique(s, 0, ms, ScanMatches(s, 0));
    StripFromSplicesScan(s, 0);
  }

  /** Characters removed by the rewrite of `ms`: each span loses its `{ body }` and gains a `;`. */
  function Removed(ms: seq<Match>): int {
    if ms == [] then 0 else (ms[0].end - ms[0].brace - 1) + Removed(ms[1..])
  }

  lemma {:induction false} SpliceLength(s: string, i: nat, ms: seq<Match>)
    requires Spans(|s|, i, ms)
    requires forall j :: 0 <= j < |ms| ==> ms[j].brace + 1 < ms[j].end
    ensures |Splice(s, i, ms)| == |s| - i - Removed(ms)
    ensures ms != [] ==> Removed(ms) > 0
    ensures ms == [] ==> Removed(ms) == 0
    decreases |ms|
  {
    if ms != [] {
      SpliceLength(s, ms[0].end, ms[1..]);
    }
  }

  lemma {:induction false} LeftmostWide(s: string, i: nat, ms: seq<Match>)
    requires i <= |s|
    requires LeftmostMatches(s, i, ms)
    ensures forall j :: 0 <= j < |ms| ==> ms[j].brace + 1 < ms[j].end
    decreases |ms|
  {
    if ms != [] {
      LeftmostWide(s, ms[0].end, ms[1..]);
      forall j | 0 < j < |ms| ensures ms[j].brace + 1 < ms[j].end {
        assert ms[j] == ms[1..][j - 1];
      }
    }
  }

  /**
   * The output is never longer than the input, and it is strictly shorter
   * exactly when the pattern matches somewhere; otherwise it is the input.
   */
  lemma StripLength(s: string)
    ensures |Strip(s)| <= |s|
    ensures |Strip(s)| < |s| <==> exists k :: 0 <= k < |s| && MatchesAt(s, k)
    ensures (forall k :: 0 <= k < |s| ==> !MatchesAt(s, k)) ==> Strip(s) == s
  {
    var ms := ScanMatches(s, 0);
    ScanMatchesLeftmost(s, 0);
    StripIsSplice(s, ms);
    LeftmostWide(s, 0, ms);
    SpliceLength(s, 0, ms);
    if ms != [] {
      assert MatchesAt(s, ms[0].start);
    } else {
      assert Strip(s) == s[0..];
    }
  }

  /** Every match has its `{` and its `}` at or after its start. */
  lemma MatchHasBraces(s: string)
    ensures forall j: nat, m: Match :: PatternAt(s, j, m) ==>
      j <= m.brace < |s| && s[m.brace] == '{' && j <= m.end - 1 < |s| && s[m.end - 1] == '}'
  {
  }

  /** A text without a `{` or without a `}` is left unchanged. */
  lemma NoBraceUnchanged(s: string)
    requires '{' !in s || '}' !in s
    ensures Strip(s) == s
  {
    MatchHasBraces(s);
    assert forall k :: 0 <= k < |s| ==> !MatchesAt(s, k);
    StripLength(s);
  }

  /** A text that has no `{` from position `k` on is copied from there unchanged. */
  lemma NoOpenBraceCopies(s: string, k: nat)
    requires k <= |s| && '{' !in s[k..]
    ensures StripFrom(s, k) == s[k..]
  {
    forall j | k <= j < |s| ensures s[j] != '{' {
      assert s[j] == s[k..][j - k];
    }
    MatchHasBraces(s);
    assert forall j :: k <= j < |s| ==> !MatchesAt(s, j);
    NoMatchCopies(s, k);
  }

  /**
   * A text that is exactly one definition `type name(params) {body}` becomes
   * its header, kept verbatim including every blank before the `{`,
   * followed by `;`.
   */
  lemma StripDefinition(ty: string, sp1: string, name: string, sp2: string,
                        params: string, sp3: string, body: string)
    requires |ty| > 0 && All(ty, 0, |ty|, Word)
    requires |sp1| > 0 && All(sp1, 0, |sp1|, Space)
    requires |name| > 0 && All(name, 0, |name|, Word)
    requires All(sp2, 0, |sp2|, Space) && All(sp3, 0, |sp3|, Space)
    requires ')' !in params && '}' !in body
    ensures Strip(ty + sp1 + name + sp2 + "(" + params + ")" + sp3 + "{" + body + "}")
         == ty + sp1 + name + sp2 + "(" + params + ")" + sp3 + ";"
  {
    var header := ty + sp1 + name + sp2 + "(" + params + ")" + sp3;
    var s := header + "{" + body + "}";
    var m := DefinitionMatch([], ty, sp1, name, sp2, params, sp3, body, []);
    assert [] + ty == ty && s + [] == s;
    StripFromMatch(s, 0, m);
  }

  /** A part of class `cls` placed after `a` in `s` makes that stretch of `s` a run of `cls`. */
  lemma AllIn(s: string, a: string, part: string, cls: Class)
    requires a + part <= s && All(part, 0, |part|, cls)
    ensures All(s, |a|, |a| + |part|, cls)
  {
    forall k | |a| <= k < |a| + |part| ensures In(cls, s[k]) {
      assert s[k] == (a + part)[k] == part[k - |a|];
    }
  }

  /** A prefix of a prefix is a prefix. */
  lemma PrefixOfPrefix(a: string, b: string, s: string)
    requires a + b <= s
    ensures a <= s
  {
    assert (a + b)[..|a|] == a;
  }

  /**
   * The split points of a definition assembled from its parts, placed after
   * a text `pre` that ends in a non-word character and before any text `post`.
   */
  lemma DefinitionMatch(pre: string, ty: string, sp1: string, name: string, sp2: string,
                        params: string, sp3: string, body: string, post: string) returns (m: Match)
    requires pre == [] || !IsWord(pre[|pre| - 1])
    requires |ty| > 0 && All(ty, 0, |ty|, Word)
    requires |sp1| > 0 && All(sp1, 0, |sp1|, Space)
    requires |name| > 0 && All(name, 0, |name|, Word)
    requires All(sp2, 0, |sp2|, Space) && All(sp3, 0, |sp3|, Space)
    requires ')' !in params && '}' !in body
    ensures var s := pre + ty + sp1 + name + sp2 + "(" + params + ")" + sp3 + "{" + body + "}" + post;
      PatternAt(s, |pre|, m) &&
      s[..m.brace] == pre + ty + sp1 + name + sp2 + "(" + params + ")" + sp3 &&
      s[m.end..] == post
  {
    var h1 := pre + ty;
    var h2 := h1 + sp1;
    var h3 := h2 + name;
    var h4 := h3 + sp2;
    var h5 := h4 + "(";
    var h6 := h5 + params;
    var h7 := h6 + ")";
    var h8 := h7 + sp3;
    var h9 := h8 + "{";
    var h10 := h9 + body;
    var h11 := h10 + "}";
    var s := h11 + post;
    PrefixOfPrefix(h11, post, s);
    PrefixOfPrefix(h10, "}", s);
    PrefixOfPrefix(h9, body, s);
    PrefixOfPrefix(h8, "{", s);
    PrefixOfPrefix(h7, sp3, s);
    PrefixOfPrefix(h6, ")", s);
    PrefixOfPrefix(h5, params, s);
    PrefixOfPrefix(h4, "(", s);
    PrefixOfPrefix(h3, sp2, s);
    PrefixOfPrefix(h2, name, s);
    PrefixOfPrefix(h1, sp1, s);
    m := Match(|pre|, |h1|, |h2|, |h3|, |h4|, |h6|, |h8|, |h11|);
    AllIn(s, pre, ty, Word);
    AllIn(s, h1, sp1, Space);
    AllIn(s, h2, name, Word);
    AllIn(s, h3, sp2, Space);
    AllIn(s, h5, params, NotCloseParen) by {
      forall k | 0 <= k < |params| ensures In(NotCloseParen, params[k]) {
        assert params[k] in params;
      }
    }
    AllIn(s, h7, sp3, Space);
    AllIn(s, h9, body, NotCloseBrace) by {
      forall k | 0 <= k < |body| ensures In(NotCloseBrace, body[k]) {
        assert body[k] in body;
      }
    }
    assert s[|pre|] == h1[|pre|] == ty[0];
    assert |pre| > 0 ==> s[|pre| - 1] == pre[|pre| - 1];
    assert s[|h4|] == h5[|h4|] == '(';
    assert s[|h6|] == h7[|h6|] == ')';
    assert s[|h8|] == h9[|h8|] == '{';
    assert s[|h10|] == h11[|h10|] == '}';
  }

  /** Where the pattern matches, the scan emits the header and `;` and resumes after the match. */
  lemma StripFromMatch(s: string, i: nat, m: Match)
    requires PatternAt(s, i, m)
    ensures StripFrom(s, i) == s[i..m.brace] + ";" + StripFrom(s, m.end)
  {
    MatchAtComplete(s, i, m);
  }

  /** At a character that is not a word character the scan copies it. */
  lemma StripFromCopy(s: string, i: nat)
    requires i < |s| && !IsWord(s[i])
    ensures StripFrom(s, i) == [s[i]] + StripFrom(s, i + 1)
  {
  }

  /** The text of the `add` example, cut into the parts of a definition. */
  lemma AddText()
    ensures "int add(int a, int b) { return a + b; }"
         == "int" + " " + "add" + "" + "(" + "int a, int b" + ")" + " " + "{" + " return a + b; " + "}"
  {
  }

  /** The expected output of the `add` example, cut the same way. */
  lemma AddHeader()
    ensures "int add(int a, int b) ;" == "int" + " " + "add" + "" + "(" + "int a, int b" + ")" + " " + ";"
  {
  }

  /** The function `add` keeps only its prototype. */
  lemma ExampleAdd()
    ensures Strip("int add(int a, int b) { return a + b; }") == "int add(int a, int b) ;"
  {
    AddText();
    AddHeader();
    StripDefinition("int", " ", "add", "", "int a, int b", " ", " return a + b; ");
  }

  /** The first definition of the two-definition example, cut into its parts. */
  lemma FirstDefinitionText()
    ensures "int" == "" + "int"
    ensures "int " == "int" + " "
    ensures "int f" == "int " + "f"
    ensures "int f" == "int f" + ""
    ensures "int f(" == "int f" + "("
    ensures "int f(int x" == "int f(" + "int x"
    ensures "int f(int x)" == "int f(int x" + ")"
    ensures "int f(int x) " == "int f(int x)" + " "
    ensures "int f(int x) {" == "int f(int x) " + "{"
    ensures "int f(int x) { return x; " == "int f(int x) {" + " return x; "
    ensures "int f(int x) { return x; }" == "int f(int x) { return x; " + "}"
    ensures "int f(int x) { return x; } " == "int f(int x) { return x; }" + " "
  {
  }

  /** The whole two-definition example, cut into the first definition, a blank and the parts of the second. */
  lemma SecondDefinitionText()
    ensures "int f(int x) { return x; } int" == "int f(int x) { return x; } " + "int"
    ensures "int f(int x) { return x; } int " == "int f(int x) { return x; } int" + " "
    ensures "int f(int x) { return x; } int g" == "int f(int x) { return x; } int " + "g"
    ensures "int f(int x) { return x; } int g" == "int f(int x) { return x; } int g" + ""
    ensures "int f(int x) { return x; } int g(" == "int f(int x) { return x; } int g" + "("
    ensures "int f(int x) { return x; } int g(int y" == "int f(int x) { return x; } int g(" + "int y"
    ensures "int f(int x) { return x; } int g(int y)" == "int f(int x) { return x; } int g(int y" + ")"
    ensures "int f(int x) { return x; } int g(int y) " == "int f(int x) { return x; } int g(int y)" + " "
    ensures "int f(int x) { return x; } int g(int y) {" == "int f(int x) { return x; } int g(int y) " + "{"
    ensures "int f(int x) { return x; } int g(int y) { return y; " == "int f(int x) { return x; } int g(int y) {" + " return y; "
    ensures "int f(int x) { return x; } int g(int y) { return y; }" == "int f(int x) { return x; } int g(int y) { return y; " + "}"
    ensures "int f(int x) { return x; } int g(int y) { return y; }" == "int f(int x) { return x; } int g(int y) { return y; }" + ""
    ensures "int f(int x) { return x; } int g(int y) " == "int f(int x) { return x; } " + "int g(int y) "
  {
  }

  /** A prefix and the rest of the text after it make up the text. */
  lemma PrefixSplit(a: string, s: string)
    requires a <= s
    ensures a + s[|a|..] == s
  {
  }

  /** In the two-definition example, the scan from the second definition keeps its prototype. */
  lemma SecondDefinitionStrip()
    ensures StripFrom("int f(int x) { return x; } int g(int y) { return y; }", |"int f(int x) { return x; } "|)
         == "int g(int y) " + ";"
  {
    var s := "int f(int x) { return x; } int g(int y) { return y; }";
    var pre := "int f(int x) { return x; } ";
    SecondDefinitionText();
    var m := DefinitionMatch(pre, "int", " ", "g", "", "int y", " ", " return y; ", "");
    StripFromMatch(s, |pre|, m);
    assert s[|pre|..m.brace] == "int g(int y) ";
    assert StripFrom(s, m.end) == [];
  }

  /** Two definitions in a row each keep only their prototype; the text between them is kept. */
  lemma ExampleTwoFunctions()
    ensures Strip("int f(int x) { return x; } int g(int y) { return y; }")
         == "int f(int x) ; int g(int y) ;"
  {
    var s := "int f(int x) { return x; } int g(int y) { return y; }";
    var d1 := "int f(int x) { return x; }";
    var pre := "int f(int x) { return x; } ";
    FirstDefinitionText();
    SecondDefinitionText();
    assert pre <= s;
    PrefixOfPrefix(d1, " ", s);
    PrefixSplit(d1, s);
    var m1 := DefinitionMatch("", "int", " ", "f", "", "int x", " ", " return x; ", s[|d1|..]);
    StripFromMatch(s, 0, m1);
    assert s[m1.end] == pre[|d1|] == ' ';
    StripFromCopy(s, m1.end);
    SecondDefinitionStrip();
    calc {
      Strip(s);
      "int f(int x) " + ";" + ([' '] + ("int g(int y) " + ";"));
      { TwoFunctionsOutput(); }
      "int f(int x) ; int g(int y) ;";
    }
  }

  /** The output of the two-definition example, assembled from its parts. */
  lemma TwoFunctionsOutput()
    ensures "int f(int x) " + ";" + ([' '] + ("int g(int y) " + ";")) == "int f(int x) ; int g(int y) ;"
  {
  }

  /** The header of the nested-block example, cut into its parts. */
  lemma NestedHeaderText()
    ensures "int" == "" + "int"
    ensures "int " == "int" + " "
    ensures "int f" == "int " + "f"
    ensures "int f" == "int f" + ""
    ensures "int f(" == "int f" + "("
    ensures "int f(int x" == "int f(" + "int x"
    ensures "int f(int x)" == "int f(int x" + ")"
    ensures "int f(int x) " == "int f(int x)" + " "
    ensures "int f(int x) {" == "int f(int x) " + "{"
  {
  }

  /** The nested-block example, cut into its header, `{`, body, `}` and the rest. */
  lemma NestedBodyText()
    ensures "int f(int x) { if (x) { return 1; " == "int f(int x) {" + " if (x) { return 1; "
    ensures "int f(int x) { if (x) { return 1; }" == "int f(int x) { if (x) { return 1; " + "}"
    ensures "int f(int x) { if (x) { return 1; } return 0; }" == "int f(int x) { if (x) { return 1; }" + " return 0; }"
  {
  }

  /** What follows the first `}` of the nested-block example opens no block. */
  lemma NestedBodyTail()
    ensures '{' !in " return 0; }"
  {
  }

  /** The output of the nested-block example, assembled from its parts. */
  lemma NestedBodyOutput()
    ensures "int f(int x) " + ";" + " return 0; }" == "int f(int x) ; return 0; }"
  {
  }

  /**
   * A body with a nested block is cut at its first `}`: the header gets its
   * `;` and the rest of the outer body, closing brace included, is kept.
   */
  lemma ExampleNestedBody()
    ensures Strip("int f(int x) { if (x) { return 1; } return 0; }")
         == "int f(int x) ; return 0; }"
  {
    var s := "int f(int x) { if (x) { return 1; } return 0; }";
    NestedHeaderText();
    NestedBodyText();
    var m := DefinitionMatch("", "int", " ", "f", "", "int x", " ", " if (x) { return 1; ", " return 0; }");
    StripFromMatch(s, 0, m);
    assert s[m.end..] == " return 0; }";
    NestedBodyTail();
    NoOpenBraceCopies(s, m.end);
    NestedBodyOutput();
  }

  /** Stripping a text whose output has no `{` left again changes nothing. */
  lemma StripIdempotentFlat(s: string)
    requires '{' !in Strip(s)
    ensures Strip(Strip(s)) == Strip(s)
  {
    NoBraceUnchanged(Strip(s));
  }
}
