/**
 * The two regular expressions of the formatting step, written as explicit
 * scanners with the backtracking engine's greedy choices made directly:
 *
 *   `re.search(r'####\s*(\d+(?:,\d+)*(?:\.\d+)?)', text)`   leftmost match
 *   `re.findall(r'[\d,]+(?:\.\d+)?', text)`              all matches, left to right
 *
 * Next to each scanner stands a declarative reading of its pattern (which
 * slices the pattern describes) and lemmas tying the two together: the
 * scanner returns a slice the pattern describes, the longest one from its
 * starting point, and (for `search`) the leftmost starting point.
 */
module Patterns {
  import opened Optional
  import opened PyStr

  /** The character classes the two patterns use: `\s`, `\d` and `[\d,]`. */
  datatype CharClass = Space | Digit | DigitOrComma

  predicate InClass(c: char, cls: CharClass) {
    match cls
    case Space => IsSpace(c)
    case Digit => IsDigit(c)
    case DigitOrComma => IsDigit(c) || c == ','
  }

  /** The end of the longest run of cls starting at i: what a greedy `cls*` consumes. */
  function RunEnd(s: string, i: nat, cls: CharClass): (e: nat)
    requires i <= |s|
    ensures i <= e <= |s|
    ensures forall k :: i <= k < e ==> InClass(s[k], cls)
    ensures e == |s| || !InClass(s[e], cls)
    decreases |s| - i
  {
    if i < |s| && InClass(s[i], cls) then RunEnd(s, i + 1, cls) else i
  }

  /** s[i..e] is a non-empty run of cls: `cls+`. */
  predicate IsRun(s: string, i: nat, e: nat, cls: CharClass) {
    i < e <= |s| && forall k :: i <= k < e ==> InClass(s[k], cls)
  }

  /** `\.\d+` can start at j. */
  predicate FractionAt(s: string, j: nat) {
    j + 1 < |s| && s[j] == '.' && IsDigit(s[j + 1])
  }

  /** The end of a greedy `(?:\.\d+)?` at j. */
  function FractionEnd(s: string, j: nat): (e: nat)
    requires j <= |s|
    ensures j <= e <= |s|
  {
    if FractionAt(s, j) then RunEnd(s, j + 1, Digit) else j
  }

  // ---------------------------------------------------------------------
  // `####\s*(\d+(?:,\d+)*(?:\.\d+)?)` under re.search
  // ---------------------------------------------------------------------

  const Marker: string := "####"

  /** s[i..e] matches `\d+(?:,\d+)*`: digits and commas, a digit at both ends, never two commas side by side. */
  predicate IsGroupedInt(s: string, i: nat, e: nat) {
    && i < e <= |s| && IsDigit(s[i]) && IsDigit(s[e - 1])
    && (forall k :: i <= k < e ==> InClass(s[k], DigitOrComma))
    && (forall k :: i <= k < e - 1 ==> IsDigit(s[k]) || IsDigit(s[k + 1]))
  }

  /** s[i..e] matches `\d+(?:,\d+)*(?:\.\d+)?`, the group the GSM8K pattern captures. */
  predicate IsGsm8kNumber(s: string, i: nat, e: nat) {
    || IsGroupedInt(s, i, e)
    || exists d: nat :: i < d < e <= |s| && IsGroupedInt(s, i, d) && s[d] == '.' && IsRun(s, d + 1, e, Digit)
  }

  /** `,\d+` can start at j. */
  predicate CommaGroupAt(s: string, j: nat) {
    j + 1 < |s| && s[j] == ',' && IsDigit(s[j + 1])
  }

  /** The end of a greedy `(?:,\d+)*` at j. */
  function CommaGroupsEnd(s: string, j: nat): (e: nat)
    requires j <= |s|
    ensures j <= e <= |s|
    decreases |s| - j
  {
    if CommaGroupAt(s, j) then CommaGroupsEnd(s, RunEnd(s, j + 1, Digit)) else j
  }

  /** The end of the greedy `\d+(?:,\d+)*(?:\.\d+)?` that starts at the digit s[i]. */
  function NumberEnd(s: string, i: nat): (e: nat)
    requires i <= |s|
    ensures i <= e <= |s|
  {
    FractionEnd(s, CommaGroupsEnd(s, RunEnd(s, i, Digit)))
  }

  /** Extending a grouped integer s[i..j] by greedy comma groups gives a grouped integer that cannot be extended further. */
  lemma {:induction false} CommaGroupsSpec(s: string, i: nat, j: nat)
    requires j <= |s| && IsGroupedInt(s, i, j)
    requires j == |s| || !IsDigit(s[j])
    ensures IsGroupedInt(s, i, CommaGroupsEnd(s, j))
    ensures !CommaGroupAt(s, CommaGroupsEnd(s, j))
    ensures CommaGroupsEnd(s, j) == |s| || !IsDigit(s[CommaGroupsEnd(s, j)])
    decreases |s| - j
  {
    if CommaGroupAt(s, j) {
      var e := RunEnd(s, j + 1, Digit);
      assert IsGroupedInt(s, i, e) by {
        forall k | i <= k < e - 1 ensures IsDigit(s[k]) || IsDigit(s[k + 1]) {
          if k == j - 1 {
            assert IsDigit(s[j - 1]);
          }
        }
      }
      CommaGroupsSpec(s, i, e);
    }
  }

  /** The greedy number from a digit is a slice the group describes. */
  lemma NumberEndMatches(s: string, i: nat)
    requires i < |s| && IsDigit(s[i])
    ensures IsGsm8kNumber(s, i, NumberEnd(s, i))
  {
    var j := RunEnd(s, i, Digit);
    CommaGroupsSpec(s, i, j);
    var c := CommaGroupsEnd(s, j);
    if FractionAt(s, c) {
      assert IsRun(s, c + 1, NumberEnd(s, i), Digit);
    }
  }

  /** A run of cls ends no later than the greedy run from the same place. */
  lemma RunEndLongest(s: string, i: nat, e': nat, cls: CharClass)
    requires i <= |s|
    ensures IsRun(s, i, e', cls) ==> e' <= RunEnd(s, i, cls)
  {
  }

  /** A grouped integer that reaches past a non-digit at c has a comma group starting at c. */
  lemma GroupedIntPast(s: string, i: nat, e': nat, c: nat)
    ensures IsGroupedInt(s, i, e') && i <= c < e' && !IsDigit(s[c]) ==> CommaGroupAt(s, c)
  {
    if IsGroupedInt(s, i, e') && i <= c < e' && !IsDigit(s[c]) {
      assert InClass(s[c], DigitOrComma);
      assert c + 1 < e' by {
        assert IsDigit(s[e' - 1]);
      }
      assert IsDigit(s[c]) || IsDigit(s[c + 1]);
    }
  }

  /** The greedy number is the longest slice from i that the group describes: no match from i ends later. */
  lemma NumberEndLongest(s: string, i: nat, e': nat)
    requires i < |s| && IsDigit(s[i])
    ensures IsGsm8kNumber(s, i, e') ==> e' <= NumberEnd(s, i)
  {
    var j := RunEnd(s, i, Digit);
    CommaGroupsSpec(s, i, j);
    var c := CommaGroupsEnd(s, j);
    GroupedIntPast(s, i, e', c);
    assert !(IsGroupedInt(s, i, e') && c < e');
    forall d: nat | i < d < e' <= |s| && IsGroupedInt(s, i, d) && s[d] == '.' && IsRun(s, d + 1, e', Digit)
      ensures d == c && e' <= NumberEnd(s, i)
    {
      GroupedIntPast(s, i, d, c);
      assert !(c < d);
      assert !(d < c);
      RunEndLongest(s, c + 1, e', Digit);
    }
  }

  /** re.search's test at position m: `####`, the greedy `\s*`, then a digit. */
  predicate QualifiesAt(s: string, m: nat) {
    && OccursAt(s, Marker, m)
    && RunEnd(s, m + |Marker|, Space) < |s|
    && IsDigit(s[RunEnd(s, m + |Marker|, Space)])
  }

  /** The declarative reading: `####` at m, then w whitespace characters, then a digit. */
  predicate MarkerThenDigit(s: string, m: nat, w: nat) {
    && m + |Marker| + w < |s|
    && OccursAt(s, Marker, m)
    && (forall k :: m + |Marker| <= k < m + |Marker| + w ==> IsSpace(s[k]))
    && IsDigit(s[m + |Marker| + w])
  }

  lemma QualifiesIff(s: string, m: nat)
    ensures QualifiesAt(s, m) <==> exists w: nat :: MarkerThenDigit(s, m, w)
  {
    if QualifiesAt(s, m) {
      var j := RunEnd(s, m + |Marker|, Space);
      assert MarkerThenDigit(s, m, j - m - |Marker|);
    }
    if exists w: nat :: MarkerThenDigit(s, m, w) {
      var w: nat :| MarkerThenDigit(s, m, w);
      var j := RunEnd(s, m + |Marker|, Space);
      assert !IsSpace(s[m + |Marker| + w]);
      assert !(j < m + |Marker| + w);
    }
  }

  /** The leftmost qualifying position at or after i, as re.search tries them. */
  function SearchFrom(s: string, i: nat): (r: Option<nat>)
    requires i <= |s|
    ensures r.Some? ==> i <= r.value < |s| && QualifiesAt(s, r.value)
    ensures r.Some? ==> forall m :: i <= m < r.value ==> !QualifiesAt(s, m)
    ensures r.None? ==> forall m :: i <= m ==> !QualifiesAt(s, m)
    decreases |s| - i
  {
    if i == |s| then None
    else if QualifiesAt(s, i) then Some(i)
    else SearchFrom(s, i + 1)
  }

  /** re.search moves past characters that cannot start `####`. */
  lemma {:induction false} SearchSkips(s: string, i: nat, j: nat)
    requires i <= j <= |s|
    requires forall k :: i <= k < j ==> s[k] != '#'
    ensures SearchFrom(s, i) == SearchFrom(s, j)
    decreases j - i
  {
    if i < j {
      assert !OccursAt(s, Marker, i) by {
        assert i + |Marker| <= |s| ==> s[i..i + |Marker|][0] == s[i];
      }
      SearchSkips(s, i + 1, j);
    }
  }

  /** A successful re.search: the whole match starts at `at`; group 1 is s[start..end]. */
  datatype Match = Match(at: nat, start: nat, end: nat)

  /** `re.search(r'####\s*(\d+(?:,\d+)*(?:\.\d+)?)', s)`. */
  function Search(s: string): (r: Option<Match>)
    ensures r.Some? ==> && r.value.at + |Marker| <= r.value.start < r.value.end <= |s|
                        && MarkerThenDigit(s, r.value.at, r.value.start - r.value.at - |Marker|)
                        && IsDigit(s[r.value.start])
  {
    match SearchFrom(s, 0)
    case None => None
    case Some(m) =>
      var j := RunEnd(s, m + |Marker|, Space);
      QualifiesIff(s, m);
      Some(Match(m, j, NumberEnd(s, j)))
  }

  /**
   * re.search finds nothing exactly when no `####` is followed by optional
   * whitespace and a digit; otherwise its match starts at the leftmost such
   * `####`, and the group is the longest number the group pattern allows there.
   */
  lemma SearchSpec(s: string)
    ensures Search(s).None? <==> forall m: nat, w: nat :: !MarkerThenDigit(s, m, w)
    ensures Search(s).Some? ==>
              && (forall m: nat, w: nat :: m < Search(s).value.at ==> !MarkerThenDigit(s, m, w))
              && (forall k :: Search(s).value.at + |Marker| <= k < Search(s).value.start ==> IsSpace(s[k]))
              && IsGsm8kNumber(s, Search(s).value.start, Search(s).value.end)
              && (forall e: nat :: IsGsm8kNumber(s, Search(s).value.start, e) ==> e <= Search(s).value.end)
  {
    SearchNone(s);
    SearchLeftmost(s);
    SearchGroup(s);
  }

  /** Every `####` followed by optional whitespace and a digit is a position re.search accepts. */
  lemma MarkersQualify(s: string)
    ensures forall m: nat, w: nat :: MarkerThenDigit(s, m, w) ==> QualifiesAt(s, m)
  {
    forall m: nat, w: nat | MarkerThenDigit(s, m, w) ensures QualifiesAt(s, m) {
      QualifiesIff(s, m);
    }
  }

  lemma SearchNone(s: string)
    ensures Search(s).None? <==> forall m: nat, w: nat :: !MarkerThenDigit(s, m, w)
  {
    MarkersQualify(s);
  }

  lemma SearchLeftmost(s: string)
    ensures Search(s).Some? ==> forall m: nat, w: nat :: m < Search(s).value.at ==> !MarkerThenDigit(s, m, w)
  {
    MarkersQualify(s);
  }

  lemma SearchGroup(s: string)
    ensures Search(s).Some? ==>
              && (forall k :: Search(s).value.at + |Marker| <= k < Search(s).value.start ==> IsSpace(s[k]))
              && IsGsm8kNumber(s, Search(s).value.start, Search(s).value.end)
              && (forall e: nat :: IsGsm8kNumber(s, Search(s).value.start, e) ==> e <= Search(s).value.end)
  {
    match SearchFrom(s, 0)
    case None =>
    case Some(m) =>
      var j := RunEnd(s, m + |Marker|, Space);
      NumberEndMatches(s, j);
      forall e: nat | IsGsm8kNumber(s, j, e) ensures e <= NumberEnd(s, j) {
        NumberEndLongest(s, j, e);
      }
  }

  // ---------------------------------------------------------------------
  // `[\d,]+(?:\.\d+)?` under re.findall
  // ---------------------------------------------------------------------

  /** s[i..e] matches `[\d,]+(?:\.\d+)?`. */
  predicate IsOrcaToken(s: string, i: nat, e: nat) {
    || IsRun(s, i, e, DigitOrComma)
    || exists d: nat :: i < d < e <= |s| && IsRun(s, i, d, DigitOrComma) && s[d] == '.' && IsRun(s, d + 1, e, Digit)
  }

  /** The end of the greedy `[\d,]+(?:\.\d+)?` that starts at s[i]. */
  function TokenEnd(s: string, i: nat): (e: nat)
    requires i < |s| && InClass(s[i], DigitOrComma)
    ensures i < e <= |s| && IsOrcaToken(s, i, e)
  {
    var c := RunEnd(s, i, DigitOrComma);
    if FractionAt(s, c) then
      assert IsRun(s, c + 1, RunEnd(s, c + 1, Digit), Digit);
      RunEnd(s, c + 1, Digit)
    else c
  }

  /** The greedy token is the longest slice from i that the pattern describes. */
  lemma TokenEndLongest(s: string, i: nat, e': nat)
    requires i < |s| && InClass(s[i], DigitOrComma)
    ensures IsOrcaToken(s, i, e') ==> e' <= TokenEnd(s, i)
  {
    var c := RunEnd(s, i, DigitOrComma);
    RunEndLongest(s, i, e', DigitOrComma);
    forall d: nat | i < d < e' <= |s| && IsRun(s, i, d, DigitOrComma) && s[d] == '.' && IsRun(s, d + 1, e', Digit)
      ensures d == c && e' <= TokenEnd(s, i)
    {
      RunEndLongest(s, i, d, DigitOrComma);
      assert !(d < c);
      RunEndLongest(s, c + 1, e', Digit);
    }
  }

  /** A match of findall: s[start..end]. */
  datatype Span = Span(start: nat, end: nat)

  /** Spans lie inside s[i..], in order, without overlap, and each is a longest token. */
  predicate OrderedTokens(s: string, i: nat, ms: seq<Span>) {
    && (forall k :: 0 <= k < |ms| ==> i <= ms[k].start && IsOrcaToken(s, ms[k].start, ms[k].end))
    && (forall k :: 0 <= k < |ms| ==> ms[k].end == TokenEnd(s, ms[k].start))
    && (forall k :: 0 <= k < |ms| - 1 ==> ms[k].end <= ms[k + 1].start)
  }

  /** Every character of `[\d,]` in s[i..] lies inside some span. */
  predicate Covers(s: string, i: nat, ms: seq<Span>) {
    forall p :: i <= p < |s| && InClass(s[p], DigitOrComma) ==>
      exists k :: 0 <= k < |ms| && ms[k].start <= p < ms[k].end
  }

  /**
   * `re.findall(r'[\d,]+(?:\.\d+)?', s[i..])`, as spans: try a match at each
   * position, resume after a match, otherwise move one character on.
   */
  function FindAll(s: string, i: nat): (ms: seq<Span>)
    requires i <= |s|
    ensures forall k :: 0 <= k < |ms| ==> i <= ms[k].start < ms[k].end <= |s|
    decreases |s| - i
  {
    if i == |s| then []
    else if InClass(s[i], DigitOrComma) then
      var e := TokenEnd(s, i);
      [Span(i, e)] + FindAll(s, e)
    else
      FindAll(s, i + 1)
  }

  /** The matches of findall are longest tokens, in order, without overlap. */
  lemma {:induction false} FindAllOrdered(s: string, i: nat)
    requires i <= |s|
    ensures OrderedTokens(s, i, FindAll(s, i))
    decreases |s| - i
  {
    if i < |s| {
      if InClass(s[i], DigitOrComma) {
        var e := TokenEnd(s, i);
        var rest := FindAll(s, e);
        FindAllOrdered(s, e);
        OrderedCons(s, i, rest);
      } else {
        FindAllOrdered(s, i + 1);
      }
    }
  }

  lemma OrderedCons(s: string, i: nat, rest: seq<Span>)
    requires i < |s| && InClass(s[i], DigitOrComma)
    requires OrderedTokens(s, TokenEnd(s, i), rest)
    ensures OrderedTokens(s, i, [Span(i, TokenEnd(s, i))] + rest)
  {
    var e := TokenEnd(s, i);
    var ms := [Span(i, e)] + rest;
    forall k | 0 <= k < |ms| ensures i <= ms[k].start && IsOrcaToken(s, ms[k].start, ms[k].end) {
      if k > 0 {
        assert ms[k] == rest[k - 1];
      }
    }
    forall k | 0 <= k < |ms| ensures ms[k].end == TokenEnd(s, ms[k].start) {
      if k > 0 {
        assert ms[k] == rest[k - 1];
      }
    }
    forall k | 0 <= k < |ms| - 1 ensures ms[k].end <= ms[k + 1].start {
      if k > 0 {
        assert ms[k] == rest[k - 1] && ms[k + 1] == rest[k];
      }
    }
  }

  /** findall skips no `[\d,]` character: each one lies inside a match. */
  lemma {:induction false} FindAllCovers(s: string, i: nat)
    requires i <= |s|
    ensures Covers(s, i, FindAll(s, i))
    decreases |s| - i
  {
    if i < |s| {
      if InClass(s[i], DigitOrComma) {
        var e := TokenEnd(s, i);
        FindAllCovers(s, e);
        CoversCons(s, i, e, FindAll(s, e));
      } else {
        FindAllCovers(s, i + 1);
      }
    }
  }

  lemma CoversCons(s: string, i: nat, e: nat, rest: seq<Span>)
    requires i < e <= |s| && Covers(s, e, rest)
    ensures Covers(s, i, [Span(i, e)] + rest)
  {
    var ms := [Span(i, e)] + rest;
    forall p | i <= p < |s| && InClass(s[p], DigitOrComma)
      ensures exists k :: 0 <= k < |ms| && ms[k].start <= p < ms[k].end
    {
      if p < e {
        assert ms[0].start <= p < ms[0].end;
      } else {
        var k :| 0 <= k < |rest| && rest[k].start <= p < rest[k].end;
        assert ms[k + 1] == rest[k];
      }
    }
  }

  /** No `[\d,]` character follows the last match, and without a match s[i..] has none at all. */
  lemma FindAllLast(s: string, i: nat)
    requires i <= |s|
    ensures var ms := FindAll(s, i);
            |ms| > 0 ==> forall p :: ms[|ms| - 1].end <= p < |s| ==> !InClass(s[p], DigitOrComma)
    ensures var ms := FindAll(s, i);
            |ms| == 0 <==> forall p :: i <= p < |s| ==> !InClass(s[p], DigitOrComma)
  {
    FindAllAfterLast(s, i);
    FindAllNone(s, i);
  }


  lemma {:induction false} FindAllAfterLast(s: string, i: nat)
    requires i <= |s|
    ensures var ms := FindAll(s, i);
            |ms| > 0 ==> forall p :: ms[|ms| - 1].end <= p < |s| ==> !InClass(s[p], DigitOrComma)
    decreases |s| - i
  {
    if i < |s| {
      if InClass(s[i], DigitOrComma) {
        var e := TokenEnd(s, i);
        var rest := FindAll(s, e);
        assert FindAll(s, i) == [Span(i, e)] + rest;
        FindAllAfterLast(s, e);
        FindAllNone(s, e);
      } else {
        FindAllAfterLast(s, i + 1);
      }
    }
  }

  lemma {:induction false} FindAllNone(s: string, i: nat)
    requires i <= |s|
    ensures |FindAll(s, i)| == 0 <==> forall p :: i <= p < |s| ==> !InClass(s[p], DigitOrComma)
    decreases |s| - i
  {
    if i < |s| && !InClass(s[i], DigitOrComma) {
      FindAllNone(s, i + 1);
    }
  }
}
