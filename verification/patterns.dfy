/** The two regular expressions of the sweep script and Python's leftmost
    `re.search` over them.

    Both patterns are deterministic. Every quantifier is greedy. All but one
    are followed by a character their class excludes (`\s*` by `#` or by a
    digit or dot, `\s+` by `V` or by a digit, `[0-9.]+` by `%`), so giving such a quantifier back a
    character can never let the rest match. The last one, `(\d+)` at the end
    of `WIDTH_PATTERN`, is followed by nothing, so Python keeps its whole
    greedy run. The match at a position is therefore a plain function of the
    text, with `RunEnd` playing the greedy quantifier. */
module Patterns {
  import opened Chars
  import opened Results

  /** `WIDTH_PATTERN`, `(^\s*#define\s+VECTOR_WIDTH\s+)(\d+)` with `re.MULTILINE`,
      and the utilization pattern `Vector Utilization:\s*([0-9.]+)%`. */
  datatype Pattern = WidthDefine | UtilizationReport

  /** Where a match starts and the bounds of the group that holds the value:
      group 2 (the digits) of `WIDTH_PATTERN`, group 1 (the number) of the
      utilization pattern. For `WIDTH_PATTERN`, `groupStart` is also the end of
      group 1. */
  datatype Match = Match(start: nat, groupStart: nat, groupEnd: nat)

  const Directive: string := "#define"
  const Name: string := "VECTOR_WIDTH"
  const Label: string := "Vector Utilization:"

  /** `lit` occurs in `t` at position `i`. */
  predicate HasAt(t: string, i: nat, lit: string) {
    i + |lit| <= |t| && forall k :: 0 <= k < |lit| ==> t[i + k] == lit[k]
  }

  /** Where `^` matches under `re.MULTILINE`: the start of the text or just
      after a line feed. */
  predicate AtLineStart(t: string, j: nat)
    requires j <= |t|
  {
    j == 0 || t[j - 1] == '\n'
  }

  predicate SpacesBetween(t: string, i: nat, e: nat)
    requires i <= e <= |t|
  {
    forall p :: i <= p < e ==> IsSpace(t[p])
  }

  /** End of group 1 of `WIDTH_PATTERN`, `^\s*#define\s+VECTOR_WIDTH\s+`,
      when it matches at `j`. */
  function DefinePrefixEnd(t: string, j: nat): (r: Option<nat>)
    requires j <= |t|
    ensures r.Some? ==> j < r.value <= |t| && (r.value == |t| || !IsSpace(t[r.value]))
  {
    if !AtLineStart(t, j) then None
    else
      var a := RunEnd(t, j, Space);
      if !HasAt(t, a, Directive) then None
      else
        var b := RunEnd(t, a + |Directive|, Space);
        if b == a + |Directive| || !HasAt(t, b, Name) then None
        else
          var c := RunEnd(t, b + |Name|, Space);
          if c == b + |Name| then None else Some(c)
  }

  /** The match of a pattern that starts exactly at `j`, if any. */
  function MatchAt(p: Pattern, t: string, j: nat): (r: Option<Match>)
    requires j <= |t|
    ensures r.Some? ==> r.value.start == j && j < r.value.groupStart < r.value.groupEnd <= |t|
    ensures r.Some? && p == UtilizationReport ==> r.value.groupEnd < |t| && t[r.value.groupEnd] == '%'
  {
    match p
    case WidthDefine =>
      (match DefinePrefixEnd(t, j)
       case None => None
       case Some(e) =>
         var f := RunEnd(t, e, Digit);
         if f == e then None else Some(Match(j, e, f)))
    case UtilizationReport =>
      if !HasAt(t, j, Label) then None
      else
        var a := RunEnd(t, j + |Label|, Space);
        var b := RunEnd(t, a, DigitOrDot);
        if a < b < |t| && t[b] == '%' then Some(Match(j, a, b)) else None
  }

  /** The value group holds digits (`WIDTH_PATTERN`) or digits and dots (the
      utilization pattern) only. */
  lemma MatchGroupChars(p: Pattern, t: string, j: nat)
    requires j <= |t| && MatchAt(p, t, j).Some?
    ensures
      var m := MatchAt(p, t, j).value;
      forall q :: m.groupStart <= q < m.groupEnd ==>
        InClass(t[q], if p == WidthDefine then Digit else DigitOrDot)
  {
    var m := MatchAt(p, t, j).value;
    RunEndSpan(t, m.groupStart, if p == WidthDefine then Digit else DigitOrDot);
  }

  /** `re.search` from position `j` on: the match with the smallest start. */
  function SearchFrom(p: Pattern, t: string, j: nat): (r: Option<Match>)
    requires j <= |t|
    ensures r.Some? ==> j <= r.value.start <= |t| && MatchAt(p, t, r.value.start) == r
    ensures forall q :: j <= q <= |t| && (r.None? || q < r.value.start) ==> MatchAt(p, t, q).None?
    decreases |t| - j
  {
    if MatchAt(p, t, j).Some? then MatchAt(p, t, j)
    else if j == |t| then None
    else SearchFrom(p, t, j + 1)
  }

  /** `re.search` over the whole text (also the match `subn(..., count=1)` rewrites). */
  function Search(p: Pattern, t: string): Option<Match> {
    SearchFrom(p, t, 0)
  }

  /** A `WIDTH_PATTERN` match is group 1 followed by the greedy digit run. */
  lemma DefineMatchParts(t: string, j: nat)
    requires j <= |t| && MatchAt(WidthDefine, t, j).Some?
    ensures
      var m := MatchAt(WidthDefine, t, j).value;
      && DefinePrefixEnd(t, j) == Some(m.groupStart)
      && RunEnd(t, m.groupStart, Digit) == m.groupEnd
      && (m.groupEnd == |t| || !IsDigit(t[m.groupEnd]))
  {
  }

  lemma DefineMatchFromParts(t: string, j: nat, e: nat, f: nat)
    requires j <= |t| && DefinePrefixEnd(t, j) == Some(e)
    requires e < f && RunEnd(t, e, Digit) == f
    ensures MatchAt(WidthDefine, t, j) == Some(Match(j, e, f))
  {
  }

  /** A match with no match before it is the one `re.search` returns. */
  lemma SearchFindsLeftmost(p: Pattern, t: string, s: nat)
    requires s <= |t| && MatchAt(p, t, s).Some?
    requires forall q :: 0 <= q < s ==> MatchAt(p, t, q).None?
    ensures Search(p, t) == MatchAt(p, t, s)
  {
  }

  // ---------------------------------------------------------------------------
  // Reference semantics: a match described by the split of the text the
  // regular expression accepts, with no reference to the greedy scanning above.

  /** `Vector Utilization:\s*([0-9.]+)%` matches at `j` with group 1 at `[a, b)`. */
  ghost predicate ReportSplit(t: string, j: nat, a: nat, b: nat) {
    && HasAt(t, j, Label)
    && j + |Label| <= a < b < |t|
    && SpacesBetween(t, j + |Label|, a)
    && (forall q :: a <= q < b ==> InClass(t[q], DigitOrDot))
    && t[b] == '%'
  }

  /** `^\s*#define\s+VECTOR_WIDTH\s+(\d+)` matches at `j` with group 2 at
      `[e, f)`, `\d+` taking every digit it can as Python's greedy `+` does. */
  ghost predicate DefineSplit(t: string, j: nat, e: nat, f: nat) {
    && j <= e < f <= |t|
    && AtLineStart(t, j)
    && (exists a: nat, b: nat :: DefineSplitVia(t, j, a, b, e))
    && (forall q :: e <= q < f ==> IsDigit(t[q]))
    && (f == |t| || !IsDigit(t[f]))
  }

  ghost predicate DefineSplitVia(t: string, j: nat, a: nat, b: nat, e: nat) {
    && j <= a && a + |Directive| < b && b + |Name| < e <= |t|
    && SpacesBetween(t, j, a)
    && HasAt(t, a, Directive)
    && SpacesBetween(t, a + |Directive|, b)
    && HasAt(t, b, Name)
    && SpacesBetween(t, b + |Name|, e)
  }

  lemma DirectiveAndNameHaveNoSpace(t: string, a: nat, lit: string)
    requires lit == Directive || lit == Name
    requires HasAt(t, a, lit)
    ensures !IsSpace(t[a])
  {
    assert t[a + 0] == lit[0];
  }

  /** The greedy scan finds exactly the splits the pattern accepts. */
  lemma ReportMatchIsSplit(t: string, j: nat, a: nat, b: nat)
    requires j <= |t|
    ensures MatchAt(UtilizationReport, t, j) == Some(Match(j, a, b)) <==> ReportSplit(t, j, a, b)
  {
    if MatchAt(UtilizationReport, t, j) == Some(Match(j, a, b)) {
      RunEndSpan(t, j + |Label|, Space);
      RunEndSpan(t, a, DigitOrDot);
    }
    if ReportSplit(t, j, a, b) {
      RunEndUnique(t, j + |Label|, Space, a);
      RunEndUnique(t, a, DigitOrDot, b);
    }
  }

  /** The greedy scan of group 1 yields a split the pattern accepts. */
  lemma PrefixEndSplit(t: string, j: nat) returns (a: nat, b: nat)
    requires j <= |t| && DefinePrefixEnd(t, j).Some?
    ensures AtLineStart(t, j) && DefineSplitVia(t, j, a, b, DefinePrefixEnd(t, j).value)
  {
    a := RunEnd(t, j, Space);
    b := RunEnd(t, a + |Directive|, Space);
    RunEndSpan(t, j, Space);
    RunEndSpan(t, a + |Directive|, Space);
    RunEndSpan(t, b + |Name|, Space);
  }

  /** Every split of group 1 that stops before a non-space is the greedy one. */
  lemma SplitPrefixEnd(t: string, j: nat, a: nat, b: nat, e: nat)
    requires DefineSplitVia(t, j, a, b, e) && AtLineStart(t, j)
    requires e == |t| || !IsSpace(t[e])
    ensures DefinePrefixEnd(t, j) == Some(e)
  {
    DirectiveAndNameHaveNoSpace(t, a, Directive);
    RunEndUnique(t, j, Space, a);
    DirectiveAndNameHaveNoSpace(t, b, Name);
    RunEndUnique(t, a + |Directive|, Space, b);
    RunEndUnique(t, b + |Name|, Space, e);
  }

  /** The greedy scan finds exactly the splits the pattern accepts. */
  lemma DefineMatchIsSplit(t: string, j: nat, e: nat, f: nat)
    requires j <= |t|
    ensures MatchAt(WidthDefine, t, j) == Some(Match(j, e, f)) <==> DefineSplit(t, j, e, f)
  {
    if MatchAt(WidthDefine, t, j) == Some(Match(j, e, f)) {
      var a, b := PrefixEndSplit(t, j);
      RunEndSpan(t, e, Digit);
    }
    if DefineSplit(t, j, e, f) {
      var a: nat, b: nat :| DefineSplitVia(t, j, a, b, e);
      SplitPrefixEnd(t, j, a, b, e);
      RunEndUnique(t, e, Digit, f);
    }
  }
}
