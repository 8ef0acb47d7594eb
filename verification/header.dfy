/** `set_vector_width`: the header text, rewritten by
    `WIDTH_PATTERN.subn(lambda m: f"{m.group(1)}{value}", text, count=1)`,
    which raises when nothing was substituted. Reading and writing the file are
    left to the caller: the header is the text itself. */
module Header {
  import opened Chars
  import opened Decimal
  import opened Results
  import opened Patterns

  datatype PatchError = PatternNotFound

  /** Replaces the digits of the leftmost `#define VECTOR_WIDTH <digits>` by the
      decimal text of `value`; fails, leaving nothing to write, when the pattern
      does not occur. Later matches are never an error: `count=1` stops after
      the first. */
  function SetWidth(t: string, value: int): Result<string, PatchError> {
    match Search(WidthDefine, t)
    case None => Err(PatternNotFound)
    case Some(m) =>
      Ok(Splice(t, m.groupStart, m.groupEnd, IntText(value)))
  }

  /** The patch fails exactly when no line of the header matches: neither a
      missing nor a repeated definition is treated otherwise. */
  lemma SetWidthFailsIffNoMatch(t: string, value: int)
    ensures SetWidth(t, value).Err? <==> forall q :: 0 <= q <= |t| ==> MatchAt(WidthDefine, t, q).None?
  {
    if SetWidth(t, value).Ok? {
      assert MatchAt(WidthDefine, t, Search(WidthDefine, t).value.start).Some?;
    }
  }

  /** `t` with the characters in `[e, f)` replaced by `d`. */
  function Splice(t: string, e: nat, f: nat, d: string): (r: string)
    requires e <= f <= |t|
    ensures |r| == |t| - (f - e) + |d|
    ensures Agree(t, r, e)
    ensures forall q {:trigger r[q]} :: e <= q < e + |d| ==> r[q] == d[q - e]
    ensures forall q {:trigger r[q]} :: e + |d| <= q < |r| ==> r[q] == t[q - |d| + f - e]
  {
    t[..e] + d + t[f..]
  }

  /** A successful patch changes nothing but the digits of the leftmost match:
      the text before them (group 1 included) and after them is kept as it was,
      and the digits become the decimal text of the value. */
  lemma SetWidthChangesOnlyDigits(t: string, value: int)
    requires SetWidth(t, value).Ok?
    ensures
      var m := Search(WidthDefine, t).value;
      var r := SetWidth(t, value).value;
      var d := IntText(value);
      && |r| == |t| - (m.groupEnd - m.groupStart) + |d|
      && r[..m.groupStart] == t[..m.groupStart]
      && r[m.groupStart..m.groupStart + |d|] == d
      && r[m.groupStart + |d|..] == t[m.groupEnd..]
  {
  }

  /** The value of `VECTOR_WIDTH` as the header defines it: the digits of the
      leftmost match, read as a number. */
  function ReadWidth(t: string): Option<nat> {
    match Search(WidthDefine, t)
    case None => None
    case Some(m) =>
      MatchGroupChars(WidthDefine, t, m.start);
      var digits := t[m.groupStart..m.groupEnd];
      assert forall q :: 0 <= q < |digits| ==> digits[q] == t[m.groupStart + q];
      Some(DigitsValue(digits))
  }

  /** `t1` and `t2` have the same first `n` characters. */
  predicate Agree(t1: string, t2: string, n: nat) {
    n <= |t1| && n <= |t2| && forall q {:trigger t2[q]} :: 0 <= q < n ==> t1[q] == t2[q]
  }

  lemma AgreeFlip(t1: string, t2: string, n: nat, p: nat)
    requires Agree(t1, t2, n) && p <= n
    ensures Agree(t2, t1, p)
  {
    forall q | 0 <= q < p
      ensures t2[q] == t1[q]
    {
      assert t1[q] == t2[q];
    }
  }

  /** Group 1 of `WIDTH_PATTERN` holds no digit. */
  lemma PrefixHasNoDigit(t: string, j: nat, e: nat)
    requires j <= |t| && DefinePrefixEnd(t, j) == Some(e)
    ensures forall q :: j <= q < e ==> !IsDigit(t[q])
  {
    var a, b := PrefixEndSplit(t, j);
    forall q | a <= q < a + |Directive|
      ensures !IsDigit(t[q])
    {
      assert t[a + (q - a)] == Directive[q - a];
    }
    forall q | b <= q < b + |Name|
      ensures !IsDigit(t[q])
    {
      assert t[b + (q - b)] == Name[q - b];
    }
  }

  /** Whether group 1 matches at `j` depends only on the text up to its end
      and on the character after it not being white space. */
  lemma PrefixIsLocal(t1: string, t2: string, j: nat, e: nat)
    requires j <= |t1| && DefinePrefixEnd(t1, j) == Some(e)
    requires Agree(t1, t2, e) && e < |t2| && !IsSpace(t2[e])
    ensures DefinePrefixEnd(t2, j) == Some(e)
  {
    var a, b := PrefixEndSplit(t1, j);
    SplitCarriesOver(t1, t2, j, a, b, e);
    SplitPrefixEnd(t2, j, a, b, e);
  }

  lemma SplitCarriesOver(t1: string, t2: string, j: nat, a: nat, b: nat, e: nat)
    requires DefineSplitVia(t1, j, a, b, e) && AtLineStart(t1, j)
    requires Agree(t1, t2, e)
    ensures AtLineStart(t2, j) && DefineSplitVia(t2, j, a, b, e)
  {
    if j > 0 {
      assert t2[j - 1] == t1[j - 1];
    }
  }

  /** A successful patch is the splice of the new digits over the digits of
      the leftmost match. */
  lemma SetWidthIsSplice(t: string, v: int)
    requires SetWidth(t, v).Ok?
    ensures Search(WidthDefine, t).Some?
    ensures
      var m := Search(WidthDefine, t).value;
      && MatchAt(WidthDefine, t, m.start) == Some(m)
      && SetWidth(t, v).value == Splice(t, m.groupStart, m.groupEnd, IntText(v))
  {
  }

  /** Splicing digits over the digits of a match keeps that match, with the
      new digits as its group 2. */
  lemma SpliceKeepsMatch(t: string, s: nat, e: nat, f: nat, d: string)
    requires s <= |t| && MatchAt(WidthDefine, t, s) == Some(Match(s, e, f))
    requires |d| > 0 && AllDigits(d)
    ensures MatchAt(WidthDefine, Splice(t, e, f, d), s) == Some(Match(s, e, e + |d|))
  {
    var t' := Splice(t, e, f, d);
    DefineMatchParts(t, s);
    assert t'[e] == d[0];
    PrefixIsLocal(t, t', s, e);
    forall q | e <= q < e + |d|
      ensures IsDigit(t'[q])
    {
      assert t'[q] == d[q - e];
    }
    if e + |d| < |t'| {
      assert t'[e + |d|] == t[f];
    }
    RunEndUnique(t', e, Digit, e + |d|);
    DefineMatchFromParts(t', s, e, e + |d|);
  }

  /** Splicing digits over the digits of a match creates no match before it. */
  lemma SpliceAddsNoEarlierMatch(t: string, s: nat, e: nat, f: nat, d: string, q: nat)
    requires s <= |t| && MatchAt(WidthDefine, t, s) == Some(Match(s, e, f))
    requires |d| > 0 && AllDigits(d)
    requires q < s
    ensures MatchAt(WidthDefine, Splice(t, e, f, d), q).Some? ==> MatchAt(WidthDefine, t, q).Some?
  {
    var t' := Splice(t, e, f, d);
    if MatchAt(WidthDefine, t', q).Some? {
      DefineMatchParts(t', q);
      var p := DefinePrefixEnd(t', q).value;
      assert IsDigit(t'[e]) by {
        assert t'[e] == d[0];
      }
      PrefixHasNoDigit(t', q, p);
      assert p <= e;
      EarlierPrefixCarriesBack(t, t', q, p, e);
    }
  }

  lemma EarlierPrefixCarriesBack(t: string, t': string, q: nat, p: nat, e: nat)
    requires q <= |t'| && DefinePrefixEnd(t', q) == Some(p) && p < |t'| && IsDigit(t'[p])
    requires p <= e < |t| && IsDigit(t[e]) && Agree(t, t', e)
    ensures MatchAt(WidthDefine, t, q).Some?
  {
    assert IsDigit(t[p]) by {
      if p < e {
        assert t'[p] == t[p];
      }
    }
    AgreeFlip(t, t', e, p);
    PrefixIsLocal(t', t, q, p);
  }

  /** Splicing twice over the same digits is splicing once with the second. */
  lemma SpliceTwice(t: string, e: nat, f: nat, d1: string, d2: string)
    requires e <= f <= |t|
    ensures Splice(Splice(t, e, f, d1), e, e + |d1|, d2) == Splice(t, e, f, d2)
  {
    var t1 := Splice(t, e, f, d1);
    var r1 := Splice(t1, e, e + |d1|, d2);
    var r2 := Splice(t, e, f, d2);
    forall q | 0 <= q < |r1|
      ensures r1[q] == r2[q]
    {
      if q < e {
        assert r1[q] == t1[q] == t[q];
      } else if q >= e + |d2| {
        assert r1[q] == t1[q - |d2| + |d1|];
      }
    }
  }

  /** Splicing digits over the digits of the leftmost match keeps it the
      leftmost match. */
  lemma SpliceKeepsLeftmost(t: string, m: Match, d: string)
    requires Search(WidthDefine, t) == Some(m)
    requires |d| > 0 && AllDigits(d)
    ensures Search(WidthDefine, Splice(t, m.groupStart, m.groupEnd, d))
      == Some(Match(m.start, m.groupStart, m.groupStart + |d|))
  {
    var t' := Splice(t, m.groupStart, m.groupEnd, d);
    SpliceKeepsMatch(t, m.start, m.groupStart, m.groupEnd, d);
    SpliceAddsNoMatchBefore(t, m, d);
    SearchFindsLeftmost(WidthDefine, t', m.start);
  }

  lemma SpliceAddsNoMatchBefore(t: string, m: Match, d: string)
    requires Search(WidthDefine, t) == Some(m)
    requires |d| > 0 && AllDigits(d)
    ensures forall q :: 0 <= q < m.start ==>
      MatchAt(WidthDefine, Splice(t, m.groupStart, m.groupEnd, d), q).None?
  {
    forall q | 0 <= q < m.start
      ensures MatchAt(WidthDefine, Splice(t, m.groupStart, m.groupEnd, d), q).None?
    {
      SpliceAddsNoEarlierMatch(t, m.start, m.groupStart, m.groupEnd, d, q);
    }
  }

  /** After a patch with a non-negative value, the leftmost match is on the
      same line, with the same group 1, and its digits are the new ones. */
  lemma PatchedTextMatch(t: string, v: nat, t': string)
    requires SetWidth(t, v) == Ok(t')
    ensures
      var m := Search(WidthDefine, t).value;
      Search(WidthDefine, t') == Some(Match(m.start, m.groupStart, m.groupStart + |IntText(v)|))
  {
    SetWidthIsSplice(t, v);
    var m := Search(WidthDefine, t).value;
    SplicedSearch(t, m, v, t');
  }

  lemma SplicedSearch(t: string, m: Match, v: nat, t': string)
    requires Search(WidthDefine, t) == Some(m)
    requires t' == Splice(t, m.groupStart, m.groupEnd, IntText(v))
    ensures Search(WidthDefine, t') == Some(Match(m.start, m.groupStart, m.groupStart + |IntText(v)|))
  {
    SpliceKeepsLeftmost(t, m, IntText(v));
  }

  /** Patching twice is patching once with the second value: the first write
      leaves the line matchable and the second rewrites the same digits. */
  lemma SetWidthLastWriteWins(t: string, v: nat, w: int)
    requires SetWidth(t, v).Ok?
    ensures SetWidth(SetWidth(t, v).value, w) == SetWidth(t, w)
  {
    SetWidthIsSplice(t, v);
    var m := Search(WidthDefine, t).value;
    var t' := SetWidth(t, v).value;
    PatchedTextMatch(t, v, t');
    assert SetWidth(t', w).value == Splice(t', m.groupStart, m.groupStart + |IntText(v)|, IntText(w));
    SpliceTwice(t, m.groupStart, m.groupEnd, IntText(v), IntText(w));
  }

  /** Patching with the same value twice gives the text of patching once. */
  lemma SetWidthIdempotent(t: string, v: nat)
    requires SetWidth(t, v).Ok?
    ensures SetWidth(SetWidth(t, v).value, v) == SetWidth(t, v)
  {
    SetWidthLastWriteWins(t, v, v);
  }

  /** Reading the leftmost match back after a patch yields the value written. */
  lemma SetWidthReadBack(t: string, v: nat)
    requires SetWidth(t, v).Ok?
    ensures ReadWidth(SetWidth(t, v).value) == Some(v)
  {
    SetWidthIsSplice(t, v);
    var m := Search(WidthDefine, t).value;
    var d := IntText(v);
    var t' := SetWidth(t, v).value;
    PatchedTextMatch(t, v, t');
    assert t'[m.groupStart..m.groupStart + |d|] == d == NatText(v);
    NatTextRoundTrip(v);
  }

  /** The header line `#define VECTOR_WIDTH 4` patched with 8. */
  lemma SetWidthExample()
    ensures SetWidth("#define VECTOR_WIDTH 4\n", 8) == Ok("#define VECTOR_WIDTH 8\n")
  {
    var t := "#define VECTOR_WIDTH 4\n";
    ExampleSearch();
    assert IntText(8) == "8" by {
      assert DigitChar(8) == '8';
    }
    assert t[..21] + "8" + t[22..] == "#define VECTOR_WIDTH 8\n";
  }

  lemma ExampleSearch()
    ensures Search(WidthDefine, "#define VECTOR_WIDTH 4\n") == Some(Match(0, 21, 22))
  {
    var t := "#define VECTOR_WIDTH 4\n";
    assert HasAt(t, 0, Directive) && HasAt(t, 8, Name);
    assert DefineSplitVia(t, 0, 0, 8, 21);
    DefineMatchIsSplit(t, 0, 21, 22);
    SearchFindsLeftmost(WidthDefine, t, 0);
  }

  /** Writing a negative width leaves a `-` where the digits were: the header
      no longer matches, and the next patch fails. */
  lemma NegativeWidthUnmatched()
    ensures SetWidth("#define VECTOR_WIDTH 4\n", -1) == Ok("#define VECTOR_WIDTH -1\n")
    ensures SetWidth("#define VECTOR_WIDTH -1\n", 8).Err?
  {
    var t := "#define VECTOR_WIDTH 4\n";
    ExampleSearch();
    assert IntText(-1) == "-1" by {
      assert DigitChar(1) == '1';
    }
    assert t[..21] + "-1" + t[22..] == "#define VECTOR_WIDTH -1\n";
    NegativeTextUnmatched();
  }

  lemma NegativeTextUnmatched()
    ensures Search(WidthDefine, "#define VECTOR_WIDTH -1\n").None?
  {
    var u := "#define VECTOR_WIDTH -1\n";
    NegativeLineUnmatched();
    SingleLine(u);
    forall j | 0 < j <= |u|
      ensures MatchAt(WidthDefine, u, j).None?
    {
      if j == |u| {
        assert !HasAt(u, j, Directive);
      }
    }
  }

  /** The digits group cannot start at the `-`. */
  lemma NegativeLineUnmatched()
    ensures MatchAt(WidthDefine, "#define VECTOR_WIDTH -1\n", 0).None?
  {
    var u := "#define VECTOR_WIDTH -1\n";
    assert HasAt(u, 0, Directive) && HasAt(u, 8, Name);
    assert DefineSplitVia(u, 0, 0, 8, 21);
    SplitPrefixEnd(u, 0, 0, 8, 21);
    assert RunEnd(u, 21, Digit) == 21;
  }

  /** A text whose only line feed is its last character starts no line inside. */
  lemma SingleLine(u: string)
    requires u == "#define VECTOR_WIDTH -1\n"
    ensures forall j :: 0 < j < |u| ==> !AtLineStart(u, j)
  {
  }
}
