/** Python's `None`-or-value convention: `re.search` and the GSM8K extractor return `None` when nothing matches. */
module Optional {
  datatype Option<+T> = None | Some(value: T)
}

/**
 * The handful of Python `str` built-ins the pipeline relies on, written out
 * over `seq<char>`: `str.isspace` (the set that `str.strip` removes and the
 * regex class `\s` matches), substring search, `str.strip`, `str.split`,
 * `str.join` (as the partner of `split`) and `str.replace`.
 */
module PyStr {
  import opened Optional

  /** Python's whitespace set: the characters for which `str.isspace()` is true. */
  predicate IsSpace(c: char) {
    || ('\t' <= c <= '\r')
    || ('\U{1C}' <= c <= '\U{1F}')
    || c == ' ' || c == '\U{85}' || c == '\U{A0}' || c == '\U{1680}'
    || ('\U{2000}' <= c <= '\U{200A}')
    || c == '\U{2028}' || c == '\U{2029}' || c == '\U{202F}' || c == '\U{205F}' || c == '\U{3000}'
  }

  /** The ASCII decimal digits. */
  predicate IsDigit(c: char) {
    '0' <= c <= '9'
  }

  /** `s.startswith(p)`. */
  predicate IsPrefix(p: string, s: string) {
    |p| <= |s| && s[..|p|] == p
  }

  /** `p in s`: p occurs in s as a contiguous substring. */
  predicate Contains(s: string, p: string)
    decreases |s|
  {
    IsPrefix(p, s) || (|s| > 0 && Contains(s[1..], p))
  }

  /** p occurs in s at index i. */
  predicate OccursAt(s: string, p: string, i: nat) {
    i + |p| <= |s| && s[i..i + |p|] == p
  }

  lemma {:induction false} ContainsLength(s: string, p: string)
    ensures Contains(s, p) ==> |p| <= |s|
    decreases |s|
  {
    if |s| > 0 {
      ContainsLength(s[1..], p);
    }
  }

  /** An occurrence in a suffix is an occurrence in the whole string. */
  lemma {:induction false} ContainsInSuffix(s: string, p: string, a: nat)
    requires a <= |s|
    ensures Contains(s[a..], p) ==> Contains(s, p)
    decreases a
  {
    if a > 0 {
      assert s[1..][a - 1..] == s[a..];
      ContainsInSuffix(s[1..], p, a - 1);
    }
  }

  /** An occurrence in a prefix is an occurrence in the whole string. */
  lemma {:induction false} ContainsInPrefix(s: string, p: string, b: nat)
    requires b <= |s|
    ensures Contains(s[..b], p) ==> Contains(s, p)
    decreases |s|
  {
    if Contains(s[..b], p) {
      if IsPrefix(p, s[..b]) {
        assert s[..b][..|p|] == s[..|p|];
      } else {
        assert s[..b][1..] == s[1..][..b - 1];
        ContainsInPrefix(s[1..], p, b - 1);
      }
    }
  }

  /** A string without p has no slice containing p. */
  lemma ContainsInSlice(s: string, p: string, a: nat, b: nat)
    requires a <= b <= |s|
    ensures Contains(s[a..b], p) ==> Contains(s, p)
  {
    assert s[a..b] == s[a..][..b - a];
    ContainsInPrefix(s[a..], p, b - a);
    ContainsInSuffix(s, p, a);
  }

  /** If the first two characters of p never appear side by side in s, then p does not occur in s. */
  lemma {:induction false} AbsentByPair(s: string, p: string)
    requires |p| >= 2
    requires forall k :: 0 <= k < |s| - 1 && s[k] == p[0] ==> s[k + 1] != p[1]
    ensures !Contains(s, p)
    decreases |s|
  {
    if |s| > 0 {
      assert |s| >= |p| ==> s[..|p|][0] == s[0] && s[..|p|][1] == s[1];
      forall k | 0 <= k < |s[1..]| - 1 && s[1..][k] == p[0]
        ensures s[1..][k + 1] != p[1]
      {
        assert s[k + 1] == p[0];
      }
      AbsentByPair(s[1..], p);
    }
  }

  /** `str.lstrip()`: drop leading whitespace. */
  function TrimStart(s: string): (r: string)
    ensures |r| <= |s| && r == s[|s| - |r|..]
    ensures forall k :: 0 <= k < |s| - |r| ==> IsSpace(s[k])
    ensures r == [] || !IsSpace(r[0])
    decreases |s|
  {
    if |s| > 0 && IsSpace(s[0]) then TrimStart(s[1..]) else s
  }

  /** `str.rstrip()`: drop trailing whitespace. */
  function TrimEnd(s: string): (r: string)
    ensures |r| <= |s| && r == s[..|r|]
    ensures forall k :: |r| <= k < |s| ==> IsSpace(s[k])
    ensures r == [] || !IsSpace(r[|r| - 1])
    decreases |s|
  {
    if |s| > 0 && IsSpace(s[|s| - 1]) then TrimEnd(s[..|s| - 1]) else s
  }

  /** r is the slice of s at index i, and everything of s outside that slice is whitespace. */
  predicate SpaceAround(s: string, r: string, i: nat) {
    && i + |r| <= |s| && r == s[i..i + |r|]
    && (forall k :: 0 <= k < i ==> IsSpace(s[k]))
    && (forall k :: i + |r| <= k < |s| ==> IsSpace(s[k]))
  }

  /**
   * `str.strip()`: the result is the slice of s left after removing the
   * whitespace at both ends, and it neither starts nor ends with whitespace.
   */
  function Strip(s: string): (r: string)
    ensures r == [] || (!IsSpace(r[0]) && !IsSpace(r[|r| - 1]))
    ensures exists i: nat :: SpaceAround(s, r, i)
  {
    var t := TrimStart(s);
    var r := TrimEnd(t);
    StripAround(s, t, r);
    r
  }

  lemma StripAround(s: string, t: string, r: string)
    requires |t| <= |s| && t == s[|s| - |t|..] && (forall k :: 0 <= k < |s| - |t| ==> IsSpace(s[k]))
    requires t == [] || !IsSpace(t[0])
    requires |r| <= |t| && r == t[..|r|] && (forall k :: |r| <= k < |t| ==> IsSpace(t[k]))
    requires r == [] || !IsSpace(r[|r| - 1])
    ensures SpaceAround(s, r, |s| - |t|)
    ensures r == [] || (!IsSpace(r[0]) && !IsSpace(r[|r| - 1]))
  {
    var i := |s| - |t|;
    forall k | i + |r| <= k < |s| ensures IsSpace(s[k]) {
      assert s[k] == t[k - i];
    }
    if r != [] {
      assert r[0] == t[0];
    }
  }

  /** A string without p keeps that property under `strip()`. */
  lemma StripKeepsAbsence(s: string, p: string)
    ensures Contains(Strip(s), p) ==> Contains(s, p)
  {
    var r := Strip(s);
    var i: nat :| SpaceAround(s, r, i);
    ContainsInSlice(s, p, i, i + |r|);
  }

  /** `s.find(p)` as an option: the leftmost index at which p occurs. */
  function FirstOccurrence(s: string, p: string): (r: Option<nat>)
    requires |p| > 0
    ensures r.Some? ==> r.value + |p| <= |s| && s[r.value..r.value + |p|] == p
    ensures r.None? <==> !Contains(s, p)
    decreases |s|
  {
    if IsPrefix(p, s) then Some(0)
    else if |s| == 0 then None
    else match FirstOccurrence(s[1..], p)
      case None => None
      case Some(i) => Some(i + 1)
  }

  /** Nothing before the leftmost occurrence contains p. */
  lemma {:induction false} BeforeFirstOccurrence(s: string, p: string)
    requires |p| > 0
    ensures FirstOccurrence(s, p).Some? ==> !Contains(s[..FirstOccurrence(s, p).value + |p| - 1], p)
    decreases |s|
  {
    var r := FirstOccurrence(s, p);
    if r.Some? {
      var n := r.value + |p| - 1;
      ContainsLength(s[..n], p);
      if !IsPrefix(p, s) {
        BeforeFirstOccurrence(s[1..], p);
        assert s[..n][1..] == s[1..][..n - 1];
        assert |p| <= n ==> s[..n][..|p|] == s[..|p|];
      }
    }
  }

  /** When p first occurs at i and no earlier character is p's first one, `find` returns i. */
  lemma {:induction false} FirstOccurrenceAt(s: string, p: string, i: nat)
    requires |p| > 0 && OccursAt(s, p, i)
    requires forall k :: 0 <= k < i ==> s[k] != p[0]
    ensures FirstOccurrence(s, p) == Some(i)
    decreases i
  {
    if i == 0 {
      assert IsPrefix(p, s);
    } else {
      assert s[..|p|][0] == s[0];
      assert s[1..][i - 1..i - 1 + |p|] == s[i..i + |p|];
      FirstOccurrenceAt(s[1..], p, i - 1);
    }
  }

  /** `s.rfind(c)` as an option: the last index holding c. */
  function LastIndexOf(s: string, c: char): (r: Option<nat>)
    ensures r.Some? ==> r.value < |s| && s[r.value] == c && forall j :: r.value < j < |s| ==> s[j] != c
    ensures r.None? ==> forall j :: 0 <= j < |s| ==> s[j] != c
    decreases |s|
  {
    if |s| == 0 then None
    else if s[|s| - 1] == c then Some(|s| - 1)
    else LastIndexOf(s[..|s| - 1], c)
  }

  /** `s.split(sep)` for a non-empty separator, scanning left to right. */
  function Split(s: string, sep: string): (parts: seq<string>)
    requires |sep| > 0
    ensures |parts| >= 1
    decreases |s|
  {
    match FirstOccurrence(s, sep)
    case None => [s]
    case Some(i) => [s[..i]] + Split(s[i + |sep|..], sep)
  }

  /** `sep.join(parts)`. */
  function Join(parts: seq<string>, sep: string): string
    requires |parts| >= 1
    decreases |parts|
  {
    if |parts| == 1 then parts[0] else parts[0] + sep + Join(parts[1..], sep)
  }

  /** Splitting loses nothing: joining the parts back gives the original string. */
  lemma {:induction false} JoinSplit(s: string, sep: string)
    requires |sep| > 0
    ensures Join(Split(s, sep), sep) == s
    decreases |s|
  {
    match FirstOccurrence(s, sep)
    case None =>
    case Some(i) =>
      var rest := s[i + |sep|..];
      var parts := Split(s, sep);
      assert parts == [s[..i]] + Split(rest, sep);
      assert parts[1..] == Split(rest, sep);
      JoinSplit(rest, sep);
      assert Join(parts, sep) == s[..i] + sep + Join(Split(rest, sep), sep);
      assert s == s[..i] + sep + rest;
  }

  /** No part of a split contains the separator, and the first part is what precedes its first occurrence. */
  lemma {:induction false} SplitParts(s: string, sep: string)
    requires |sep| > 0
    ensures forall k :: 0 <= k < |Split(s, sep)| ==> !Contains(Split(s, sep)[k], sep)
    ensures Split(s, sep)[0] == match FirstOccurrence(s, sep) case None => s case Some(i) => s[..i]
    decreases |s|
  {
    match FirstOccurrence(s, sep)
    case None =>
    case Some(i) =>
      var rest := s[i + |sep|..];
      var parts := Split(s, sep);
      assert parts == [s[..i]] + Split(rest, sep);
      SplitParts(rest, sep);
      FirstPartClean(s, sep, i);
      forall k | 0 <= k < |parts| ensures !Contains(parts[k], sep) {
        if k > 0 {
          assert parts[k] == Split(rest, sep)[k - 1];
        }
      }
  }

  /** What precedes the first occurrence does not contain the separator. */
  lemma FirstPartClean(s: string, sep: string, i: nat)
    requires |sep| > 0 && FirstOccurrence(s, sep) == Some(i)
    ensures !Contains(s[..i], sep)
  {
    BeforeFirstOccurrence(s, sep);
    var t := s[..i + |sep| - 1];
    assert !Contains(t, sep);
    assert s[..i] == t[..i];
    ContainsInPrefix(t, sep, i);
  }

  /** `s.replace(pat, sub)` for a non-empty pattern: left-to-right, non-overlapping. */
  function Replace(s: string, pat: string, sub: string): string
    requires |pat| > 0
    decreases |s|
  {
    if IsPrefix(pat, s) then sub + Replace(s[|pat|..], pat, sub)
    else if |s| == 0 then []
    else [s[0]] + Replace(s[1..], pat, sub)
  }

  /** A string in which the pattern does not occur is left unchanged by `replace`. */
  lemma {:induction false} ReplaceAbsent(s: string, pat: string, sub: string)
    requires |pat| > 0
    requires !Contains(s, pat)
    ensures Replace(s, pat, sub) == s
    decreases |s|
  {
    if |s| > 0 {
      ReplaceAbsent(s[1..], pat, sub);
    }
  }

  /**
   * When w never uses the first character of sub, a result of `replace` that
   * starts with w must come from a string that starts with w.
   */
  lemma {:induction false} ReplaceKeepsPrefix(t: string, pat: string, sub: string, w: string)
    requires |pat| > 0 && |sub| > 0
    requires forall k :: 0 <= k < |w| ==> w[k] != sub[0]
    ensures IsPrefix(w, Replace(t, pat, sub)) ==> IsPrefix(w, t)
    decreases |w|
  {
    var r := Replace(t, pat, sub);
    if IsPrefix(pat, t) {
      assert r == sub + Replace(t[|pat|..], pat, sub);
      assert r[0] == sub[0];
    } else if |t| > 0 && |w| > 0 {
      var rest := Replace(t[1..], pat, sub);
      assert r == [t[0]] + rest;
      assert |r| >= |w| ==> r[..|w|] == [t[0]] + rest[..|w| - 1];
      assert |t| >= |w| ==> t[..|w|] == [t[0]] + t[1..][..|w| - 1];
      ReplaceKeepsPrefix(t[1..], pat, sub, w[1..]);
    }
  }

  /** Occurrences of p in u + x that start inside u are ruled out one by one. */
  lemma {:induction false} ContainsSkipping(u: string, x: string, p: string)
    requires forall i :: 0 <= i < |u| ==> !IsPrefix(p, (u + x)[i..])
    ensures Contains(u + x, p) ==> Contains(x, p)
    decreases |u|
  {
    if |u| > 0 {
      assert (u + x)[0..] == u + x;
      assert (u + x)[1..] == u[1..] + x;
      forall i | 0 <= i < |u[1..]| ensures !IsPrefix(p, (u[1..] + x)[i..]) {
        assert (u[1..] + x)[i..] == (u + x)[i + 1..];
      }
      ContainsSkipping(u[1..], x, p);
    } else {
      assert u + x == x;
    }
  }

  /**
   * `replace(pat, sub)` leaves no occurrence of p behind, when p is the
   * pattern itself or was absent to begin with, provided the replacement
   * cannot combine with its neighbours into a new p: the first character of p
   * appears in sub only at its start, the first character of sub does not
   * appear in the rest of p, and sub does not begin with p.
   */
  lemma {:induction false} ReplaceLeavesNo(s: string, pat: string, sub: string, p: string)
    requires |pat| > 0 && |p| > 0 && |sub| >= |p|
    requires sub[..|p|] != p
    requires forall k :: 1 <= k < |sub| ==> sub[k] != p[0]
    requires forall k :: 1 <= k < |p| ==> p[k] != sub[0]
    requires p == pat || !Contains(s, p)
    ensures !Contains(Replace(s, pat, sub), p)
    decreases |s|
  {
    if IsPrefix(pat, s) {
      var rest := Replace(s[|pat|..], pat, sub);
      ContainsInSuffix(s, p, |pat|);
      ReplaceLeavesNo(s[|pat|..], pat, sub, p);
      forall i | 0 <= i < |sub| ensures !IsPrefix(p, (sub + rest)[i..]) {
        if i == 0 {
          assert (sub + rest)[..|p|] == sub[..|p|];
        } else {
          assert (sub + rest)[i..][0] == sub[i];
        }
      }
      ContainsSkipping(sub, rest, p);
    } else if |s| > 0 {
      var rest := Replace(s[1..], pat, sub);
      assert ([s[0]] + rest)[1..] == rest;
      assert |rest| + 1 >= |p| ==> ([s[0]] + rest)[..|p|] == [s[0]] + rest[..|p| - 1];
      assert |s| >= |p| ==> s[..|p|] == [s[0]] + s[1..][..|p| - 1];
      ReplaceLeavesNo(s[1..], pat, sub, p);
      ReplaceKeepsPrefix(s[1..], pat, sub, p[1..]);
    }
  }

  /** The characters an occurrence of pat would share with x and y if it straddled the seam of x + y. */
  lemma Straddle(x: string, y: string, pat: string)
    ensures IsPrefix(pat, x + y) && 0 < |x| < |pat| ==> pat[|x| - 1] == x[|x| - 1] && pat[|x|] == y[0]
  {
    if 0 < |x| < |pat| <= |x + y| {
      assert (x + y)[..|pat|][|x| - 1] == x[|x| - 1];
      assert (x + y)[..|pat|][|x|] == y[0];
    }
  }

  /**
   * `replace` distributes over a concatenation when no occurrence of the
   * pattern can straddle the seam: the last character of x appears in pat
   * only at its end, or the first character of y appears in pat only at its
   * start.
   */
  lemma {:induction false} ReplaceConcat(x: string, y: string, pat: string, sub: string)
    requires |pat| > 0
    requires || |x| == 0 || |y| == 0
             || (forall j :: 0 <= j < |pat| - 1 ==> pat[j] != x[|x| - 1])
             || (forall j :: 0 < j < |pat| ==> pat[j] != y[0])
    ensures Replace(x + y, pat, sub) == Replace(x, pat, sub) + Replace(y, pat, sub)
    decreases |x|
  {
    if |x| == 0 {
      assert x + y == y;
      assert Replace(x, pat, sub) == [];
    } else if |y| == 0 {
      assert x + y == x;
      assert Replace(y, pat, sub) == [];
    } else {
      PrefixAcrossSeam(x, y, pat);
      var n := if IsPrefix(pat, x) then |pat| else 1;
      var rest := x[n..];
      assert (x + y)[n..] == rest + y;
      assert |rest| > 0 ==> rest[|rest| - 1] == x[|x| - 1];
      ReplaceConcat(rest, y, pat, sub);
      var head := if IsPrefix(pat, x) then sub else [x[0]];
      assert (x + y)[0] == x[0];
      assert Replace(x + y, pat, sub) == head + Replace(rest + y, pat, sub);
      assert Replace(x, pat, sub) == head + Replace(rest, pat, sub);
      var a, b := Replace(rest, pat, sub), Replace(y, pat, sub);
      assert head + (a + b) == (head + a) + b;
    }
  }

  /** Under the seam condition of ReplaceConcat, pat starts x + y exactly when it starts x. */
  lemma PrefixAcrossSeam(x: string, y: string, pat: string)
    requires |pat| > 0 && |x| > 0 && |y| > 0
    requires || (forall j :: 0 <= j < |pat| - 1 ==> pat[j] != x[|x| - 1])
             || (forall j :: 0 < j < |pat| ==> pat[j] != y[0])
    ensures IsPrefix(pat, x + y) <==> IsPrefix(pat, x)
    ensures IsPrefix(pat, x) ==> (x + y)[|pat|..] == x[|pat|..] + y
  {
    Straddle(x, y, pat);
    if |x| >= |pat| {
      assert (x + y)[..|pat|] == x[..|pat|];
    }
  }

  /** The pattern itself at the front is replaced first. */
  lemma ReplaceAtFront(pat: string, y: string, sub: string)
    requires |pat| > 0
    ensures Replace(pat + y, pat, sub) == sub + Replace(y, pat, sub)
  {
    assert (pat + y)[..|pat|] == pat;
    assert (pat + y)[|pat|..] == y;
  }

  /** `s.replace(c, '')` removes every c and keeps every other character with its multiplicity. */
  lemma {:induction false} RemoveCharCounts(s: string, c: char)
    ensures forall x :: x != c ==> multiset(Replace(s, [c], []))[x] == multiset(s)[x]
    ensures multiset(Replace(s, [c], []))[c] == 0
    decreases |s|
  {
    if |s| > 0 {
      RemoveCharCounts(s[1..], c);
      assert s == [s[0]] + s[1..];
      if IsPrefix([c], s) {
        assert s[0] == c;
      }
    }
  }

  /** `s.replace(c, '')` is empty exactly when s consists of c alone. */
  lemma {:induction false} RemoveCharEmpty(s: string, c: char)
    ensures Replace(s, [c], []) == [] <==> forall k :: 0 <= k < |s| ==> s[k] == c
    decreases |s|
  {
    if |s| > 0 {
      RemoveCharEmpty(s[1..], c);
      if IsPrefix([c], s) {
        assert s[0] == c;
      }
      assert forall k :: 1 <= k < |s| ==> s[k] == s[1..][k - 1];
    }
  }
}
