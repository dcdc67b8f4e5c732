/**
 The border arithmetic behind the streaming secret filter: the failure table of a
 pattern, and the longest proper prefix of the pattern that ends a buffer.
 */
module Overlap {
  import opened Octets

  /** The last `k` bytes of `value` are the first `k` bytes of `pattern`. */
  predicate Ends(value: bytes, pattern: bytes, k: int) {
    0 <= k <= |pattern| && k <= |value| && value[|value| - k..] == pattern[..k]
  }

  /** `k` is the length of the longest proper prefix of `pattern` that ends `value`. */
  predicate IsOverlap(value: bytes, pattern: bytes, k: int) {
    && 0 <= k < |pattern|
    && Ends(value, pattern, k)
    && forall j :: k < j < |pattern| ==> !Ends(value, pattern, j)
  }

  /** `k` is the length of the longest border of `s` other than `s` itself. */
  predicate IsLongestBorder(s: bytes, k: int) {
    && 0 <= k < |s|
    && s[..k] == s[|s| - k..]
    && forall j :: k < j < |s| ==> s[..j] != s[|s| - j..]
  }

  predicate IsFailureTable(pattern: bytes, failure: seq<nat>) {
    && |failure| == |pattern|
    && forall i :: 0 <= i < |pattern| ==> IsLongestBorder(pattern[..i + 1], failure[i])
  }

  /** A prefix that ends `value + [c]` is a prefix that ends `value`, followed by `c`. */
  lemma EndsSnoc(value: bytes, c: byte, pattern: bytes, j: int)
    requires 0 < j <= |pattern|
    ensures Ends(value + [c], pattern, j) <==> Ends(value, pattern, j - 1) && pattern[j - 1] == c
  {
    var v := value + [c];
    if j <= |v| {
      assert v[|v| - j..] == value[|value| - (j - 1)..] + [c];
      assert pattern[..j] == pattern[..j - 1] + [pattern[j - 1]];
      if Ends(v, pattern, j) {
        assert value[|value| - (j - 1)..] == v[|v| - j..][..j - 1] == pattern[..j - 1];
        assert v[|v| - j..][j - 1] == c;
      }
    }
  }

  /** Below a prefix that ends `value`, ending `value` and ending that prefix are the same. */
  lemma EndsNested(value: bytes, pattern: bytes, m: int, j: int)
    requires Ends(value, pattern, m) && 0 <= j <= m
    ensures Ends(value, pattern, j) <==> Ends(pattern[..m], pattern, j)
  {
    assert pattern[..m][m - j..] == value[|value| - m..][m - j..] == value[|value| - j..];
  }

  /** Borders of a prefix, and overlaps of that prefix without its first byte, are one notion. */
  lemma BorderIsEnds(pattern: bytes, n: int, j: int)
    requires 0 < n <= |pattern| && 0 <= j < n
    ensures pattern[..n][..j] == pattern[..n][n - j..] <==> Ends(pattern[..n], pattern, j)
    ensures Ends(pattern[..n], pattern, j) <==> Ends(pattern[1..n], pattern, j)
  {
    assert pattern[..n][..j] == pattern[..j];
    assert pattern[..n][n - j..] == pattern[1..n][n - 1 - j..];
  }

  lemma OverlapIsBorder(pattern: bytes, n: int, k: int)
    requires 0 < n <= |pattern| && IsOverlap(pattern[1..n], pattern, k)
    ensures IsLongestBorder(pattern[..n], k)
  {
    BorderIsEnds(pattern, n, k);
    forall j | k < j < n ensures pattern[..n][..j] != pattern[..n][n - j..] {
      BorderIsEnds(pattern, n, j);
      assert !Ends(pattern[1..n], pattern, j);
    }
  }

  /** Every prefix ending `value + [c]` extends one of length at most `matched`. */
  ghost predicate Bounded(value: bytes, c: byte, pattern: bytes, matched: int) {
    forall j :: 0 < j <= |pattern| && Ends(value + [c], pattern, j) ==> j - 1 <= matched
  }

  lemma OverlapBounds(value: bytes, c: byte, pattern: bytes, matched: int)
    requires IsOverlap(value, pattern, matched)
    ensures Bounded(value, c, pattern, matched)
  {
    forall j | 0 < j <= |pattern| && Ends(value + [c], pattern, j) ensures j - 1 <= matched {
      EndsSnoc(value, c, pattern, j);
    }
  }

  /** Falling back to the border of the current match loses no candidate. */
  lemma FallBack(value: bytes, c: byte, pattern: bytes, matched: int, border: int)
    requires 0 < matched < |pattern| && Ends(value, pattern, matched)
    requires Bounded(value, c, pattern, matched) && pattern[matched] != c
    requires IsLongestBorder(pattern[..matched], border)
    ensures Ends(value, pattern, border)
    ensures Bounded(value, c, pattern, border)
  {
    BorderIsEnds(pattern, matched, border);
    EndsNested(value, pattern, matched, border);
    forall j | 0 < j <= |pattern| && Ends(value + [c], pattern, j) ensures j - 1 <= border {
      EndsSnoc(value, c, pattern, j);
      if j - 1 < matched {
        EndsNested(value, pattern, matched, j - 1);
        BorderIsEnds(pattern, matched, j - 1);
      }
    }
  }

  /** Once no further fall-back is possible, one comparison decides the longest ending prefix. */
  lemma Settle(value: bytes, c: byte, pattern: bytes, matched: int, next: int)
    requires 0 <= matched < |pattern| && Ends(value, pattern, matched)
    requires Bounded(value, c, pattern, matched)
    requires matched == 0 || pattern[matched] == c
    requires next == if pattern[matched] == c then matched + 1 else matched
    ensures Ends(value + [c], pattern, next)
    ensures forall j :: next < j <= |pattern| ==> !Ends(value + [c], pattern, j)
  {
    forall j | 0 < j <= |pattern| && j >= next
      ensures Ends(value + [c], pattern, j) <==> j == next && pattern[matched] == c
    {
      EndsSnoc(value, c, pattern, j);
    }
  }

  /** After a full match the longest border of the whole pattern is the overlap. */
  lemma RestartAfterMatch(value: bytes, pattern: bytes, border: int)
    requires 0 < |pattern| && Ends(value, pattern, |pattern|)
    requires IsLongestBorder(pattern, border)
    ensures IsOverlap(value, pattern, border)
  {
    assert pattern[..|pattern|] == pattern;
    BorderIsEnds(pattern, |pattern|, border);
    EndsNested(value, pattern, |pattern|, border);
    forall j | border < j < |pattern| ensures !Ends(value, pattern, j) {
      BorderIsEnds(pattern, |pattern|, j);
      EndsNested(value, pattern, |pattern|, j);
    }
  }

  ghost predicate TableUpTo(pattern: bytes, failure: seq<nat>) {
    && |failure| <= |pattern|
    && forall i :: 0 <= i < |failure| ==> IsLongestBorder(pattern[..i + 1], failure[i])
  }

  lemma TableExtends(pattern: bytes, failure: seq<nat>, border: nat)
    requires TableUpTo(pattern, failure) && |failure| < |pattern|
    requires IsLongestBorder(pattern[..|failure| + 1], border)
    ensures TableUpTo(pattern, failure + [border])
  {
  }

  /** The fall-back loop that both scans share: the longest prefix ending `value + [c]`. */
  method Advance(ghost value: bytes, c: byte, pattern: bytes, failure: seq<nat>, start: nat) returns (matched: nat)
    requires IsOverlap(value, pattern, start)
    requires TableUpTo(pattern, failure) && start <= |failure|
    ensures Ends(value + [c], pattern, matched)
    ensures forall j :: matched < j <= |pattern| ==> !Ends(value + [c], pattern, j)
  {
    matched := start;
    OverlapBounds(value, c, pattern, matched);
    while matched > 0 && c != pattern[matched]
      invariant 0 <= matched < |pattern| && matched <= |failure|
      invariant Ends(value, pattern, matched)
      invariant Bounded(value, c, pattern, matched)
    {
      FallBack(value, c, pattern, matched, failure[matched - 1]);
      matched := failure[matched - 1];
    }
    ghost var before := matched;
    if c == pattern[matched] {
      matched := matched + 1;
    }
    Settle(value, c, pattern, before, matched);
  }

  /** Fills the failure table in place, one prefix at a time. */
  method PrefixFailure(pattern: bytes) returns (table: seq<nat>)
    ensures IsFailureTable(pattern, table)
  {
    var failure := new nat[|pattern|](_ => 0);
    if |pattern| > 0 {
      var index, matched := 1, 0;
      assert IsLongestBorder(pattern[..1], 0);
      while index < |pattern|
        invariant 1 <= index <= |pattern|
        invariant TableUpTo(pattern, failure[..index])
        invariant IsOverlap(pattern[1..index], pattern, matched)
      {
        matched := Advance(pattern[1..index], pattern[index], pattern, failure[..index], matched);
        assert pattern[1..index + 1] == pattern[1..index] + [pattern[index]];
        OverlapIsBorder(pattern, index + 1, matched);
        TableExtends(pattern, failure[..index], matched);
        ghost var done := failure[..index];
        failure[index] := matched;
        assert failure[..index + 1] == done + [matched];
        index := index + 1;
      }
    }
    table := failure[..];
    assert table == failure[..|pattern|];
  }

  /** Length of the longest proper prefix of `pattern` that ends `value`, for every `value`. */
  method SuffixPrefixOverlap(value: bytes, pattern: bytes, failure: seq<nat>) returns (matched: nat)
    requires 0 < |pattern| && IsFailureTable(pattern, failure)
    ensures IsOverlap(value, pattern, matched)
  {
    hide IsLongestBorder;
    matched := 0;
    for i := 0 to |value|
      invariant IsOverlap(value[..i], pattern, matched)
    {
      matched := Advance(value[..i], value[i], pattern, failure, matched);
      assert value[..i + 1] == value[..i] + [value[i]];
      if matched == |pattern| {
        assert pattern[..|pattern|] == pattern;
        RestartAfterMatch(value[..i + 1], pattern, failure[matched - 1]);
        matched := failure[matched - 1];
      }
    }
    assert value[..|value|] == value;
  }
}
