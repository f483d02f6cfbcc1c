/**
 * The handful of Python `str` operations the pipeline relies on: substring
 * membership (`pat in s`), `s.split(sep)`, `s.replace(pat, rep)`, `s.endswith`
 * and `s.lower()`.
 */
module Text {
  import opened Base

  /** `pat` occurs in `s` starting at index `i`. */
  predicate OccursAt(s: string, pat: string, i: nat)
  {
    i + |pat| <= |s| && s[i..i + |pat|] == pat
  }

  /** Python's `pat in s`. */
  predicate Contains(s: string, pat: string)
  {
    exists i: nat | i <= |s| :: OccursAt(s, pat, i)
  }

  /** Python's `s.endswith(suffix)`. */
  predicate EndsWith(s: string, suffix: string)
  {
    |suffix| <= |s| && s[|s| - |suffix|..] == suffix
  }

  lemma OccursAtShift(s: string, pat: string, i: nat)
    requires |s| > 0
    ensures OccursAt(s, pat, i + 1) <==> OccursAt(s[1..], pat, i)
  {
    if i + 1 <= |s| {
      assert s[1..][i..] == s[i + 1..];
    }
  }

  /** The first index where `pat` occurs, if any: where `split` cuts and what `in` tests. */
  function IndexOf(s: string, pat: string): (r: Option<nat>)
    ensures r.Some? ==> r.value + |pat| <= |s|
    decreases |s|
  {
    if pat <= s then Some(0)
    else if |s| == 0 then None
    else
      match IndexOf(s[1..], pat)
      case None => None
      case Some(k) => Some(k + 1)
  }

  /** `IndexOf` finds the first occurrence, and finds none exactly when there is none. */
  lemma {:induction false} IndexOfFirst(s: string, pat: string)
    ensures var r := IndexOf(s, pat);
      && (r.Some? ==> OccursAt(s, pat, r.value))
      && (r.Some? ==> forall j: nat :: j < r.value ==> !OccursAt(s, pat, j))
      && (r.None? <==> !Contains(s, pat))
    decreases |s|
  {
    if pat <= s {
      assert s[0..|pat|] == pat;
      assert OccursAt(s, pat, 0);
    } else if |s| == 0 {
    } else {
      IndexOfFirst(s[1..], pat);
      match IndexOf(s[1..], pat)
      case None =>
        ContainsTail(s, pat);
      case Some(k) =>
        OccursAtShift(s, pat, k);
        assert OccursAt(s, pat, 0) ==> pat <= s;
        forall j: nat | 0 < j <= k ensures !OccursAt(s, pat, j) { OccursAtShift(s, pat, j - 1); }
    }
  }

  /** When `s` does not start with `pat`, every occurrence of `pat` lies in `s[1..]`. */
  lemma ContainsTail(s: string, pat: string)
    requires |s| > 0 && !(pat <= s)
    ensures Contains(s, pat) ==> Contains(s[1..], pat)
  {
    if Contains(s, pat) {
      var j: nat :| j <= |s| && OccursAt(s, pat, j);
      OccursAtShift(s, pat, j - 1);
    }
  }

  /** An occurrence inside `s[..n]` is an occurrence in `s` that ends by `n`. */
  lemma PrefixOccurrence(s: string, pat: string, n: nat)
    requires n <= |s| && |pat| > 0
    ensures Contains(s[..n], pat) ==> exists j: nat :: j < n && OccursAt(s, pat, j)
  {
    if Contains(s[..n], pat) {
      var j: nat :| j <= n && OccursAt(s[..n], pat, j);
      OccursInPrefix(s, pat, n, j);
    }
  }

  /** An occurrence inside a prefix of `s` is an occurrence in `s`. */
  lemma OccursInPrefix(s: string, pat: string, n: nat, j: nat)
    requires n <= |s| && OccursAt(s[..n], pat, j)
    ensures OccursAt(s, pat, j) && j + |pat| <= n
  {
    assert s[..n][j..] == s[j..n];
    assert s[j..][..|pat|] == s[j..n][..|pat|];
  }

  /**
   * Python's `s.split(sep)` for a non-empty separator: the pieces between
   * successive non-overlapping occurrences of `sep`, scanning left to right.
   */
  function Split(s: string, sep: string): (pieces: seq<string>)
    requires |sep| > 0
    ensures |pieces| >= 1
    decreases |s|
  {
    match IndexOf(s, sep)
    case None => [s]
    case Some(i) => [s[..i]] + Split(s[i + |sep|..], sep)
  }

  /** No piece of a split contains the separator. */
  lemma {:induction false} SplitPiecesFree(s: string, sep: string)
    requires |sep| > 0
    ensures forall k :: 0 <= k < |Split(s, sep)| ==> !Contains(Split(s, sep)[k], sep)
    decreases |s|
  {
    IndexOfFirst(s, sep);
    match IndexOf(s, sep)
    case None =>
    case Some(i) =>
      var rest := s[i + |sep|..];
      PrefixOccurrence(s, sep, i);
      SplitPiecesFree(rest, sep);
      assert Split(s, sep) == [s[..i]] + Split(rest, sep);
  }

  /** The pieces with `sep` between them: what `split` undoes, and how `replace` puts the text back together. */
  function JoinWith(pieces: seq<string>, sep: string): string
  {
    if |pieces| == 0 then ""
    else if |pieces| == 1 then pieces[0]
    else pieces[0] + sep + JoinWith(pieces[1..], sep)
  }

  lemma SliceThree(s: string, a: nat, b: nat)
    requires a <= b <= |s|
    ensures s[..a] + s[a..b] + s[b..] == s
  {
    assert s[..a] + s[a..b] == s[..b];
  }

  /** Splitting and joining back with the same separator gives the string back. */
  lemma {:induction false} SplitJoin(s: string, sep: string)
    requires |sep| > 0
    ensures JoinWith(Split(s, sep), sep) == s
    decreases |s|
  {
    IndexOfFirst(s, sep);
    match IndexOf(s, sep)
    case None =>
    case Some(i) =>
      var rest := s[i + |sep|..];
      SplitJoin(rest, sep);
      var pieces := Split(s, sep);
      assert pieces[1..] == Split(rest, sep);
      SliceThree(s, i, i + |sep|);
  }

  /**
   * The first piece of a split is the text before the first occurrence of
   * `sep`: no occurrence starts inside it, and `sep` or the end follows it.
   */
  lemma {:induction false} SplitHead(s: string, sep: string)
    requires |sep| > 0
    ensures var head := Split(s, sep)[0];
      && head <= s
      && (|head| == |s| || sep <= s[|head|..])
      && forall j: nat :: j < |head| ==> !OccursAt(s, sep, j)
  {
    IndexOfFirst(s, sep);
    match IndexOf(s, sep)
    case None =>
    case Some(i) =>
      assert Split(s, sep)[0] == s[..i];
  }

  /** A split has more than one piece exactly when the separator occurs. */
  lemma SplitCount(s: string, sep: string)
    requires |sep| > 0
    ensures |Split(s, sep)| == 1 <==> !Contains(s, sep)
  {
    IndexOfFirst(s, sep);
  }

  /** The second piece of a split is the first piece of what follows the first `sep`. */
  lemma SplitSecond(s: string, sep: string)
    requires |sep| > 0 && IndexOf(s, sep).Some?
    ensures var i := IndexOf(s, sep).value;
      |Split(s, sep)| >= 2 && Split(s, sep)[1] == Split(s[i + |sep|..], sep)[0]
  {
    IndexOfFirst(s, sep);
    var i := IndexOf(s, sep).value;
    assert Split(s, sep) == [s[..i]] + Split(s[i + |sep|..], sep);
  }

  /**
   * Python's `s.replace(pat, rep)` for a non-empty pattern: every non-overlapping
   * occurrence of `pat`, scanning left to right, is replaced by `rep`.
   */
  function Replace(s: string, pat: string, rep: string): (r: string)
    requires |pat| > 0
    ensures !Contains(s, pat) ==> r == s
    decreases |s|
  {
    IndexOfFirst(s, pat);
    match IndexOf(s, pat)
    case None => s
    case Some(i) => s[..i] + rep + Replace(s[i + |pat|..], pat, rep)
  }

  /**
   * Replacing is splitting at the pattern and joining with the replacement:
   * the text between occurrences is kept as is and in order.
   */
  lemma {:induction false} ReplaceIsSplitJoin(s: string, pat: string, rep: string)
    requires |pat| > 0
    ensures Replace(s, pat, rep) == JoinWith(Split(s, pat), rep)
    decreases |s|
  {
    match IndexOf(s, pat)
    case None =>
    case Some(i) =>
      var rest := s[i + |pat|..];
      ReplaceIsSplitJoin(rest, pat, rep);
      var pieces := Split(s, pat);
      assert pieces == [s[..i]] + Split(rest, pat);
      assert pieces[1..] == Split(rest, pat);
      assert JoinWith(pieces, rep) == s[..i] + rep + JoinWith(Split(rest, pat), rep);
  }

  /** Replacing a pattern by itself changes nothing. */
  lemma ReplaceSelf(s: string, pat: string)
    requires |pat| > 0
    ensures Replace(s, pat, pat) == s
  {
    ReplaceIsSplitJoin(s, pat, pat);
    SplitJoin(s, pat);
  }

  /** ASCII case folding, as Python's `str.lower` does on ASCII letters. */
  function LowerChar(c: char): (d: char)
  {
    if 'A' <= c <= 'Z' then (c as int + 32) as char else c
  }

  /** Python's `s.lower()`, restricted to ASCII letters. */
  function Lower(s: string): string
  {
    seq(|s|, i requires 0 <= i < |s| => LowerChar(s[i]))
  }

  /** Lowering twice is lowering once: a lowered string has no ASCII capital left. */
  lemma LowerIdempotent(s: string)
    ensures Lower(Lower(s)) == Lower(s)
    ensures forall i :: 0 <= i < |s| ==> !('A' <= Lower(s)[i] <= 'Z')
  {
  }

  /** Lowering commutes with taking a suffix. */
  lemma LowerSuffix(s: string, lo: nat)
    requires lo <= |s|
    ensures Lower(s)[lo..] == Lower(s[lo..])
  {
  }
}
