/** Path patterns with `*` and `**`, matched by dynamic programming without backtracking. */
module PathGlob {

  datatype PathSegment = Literal(text: string) | One | Many

  /** What a segment of the pattern may stand for: `**` for any run of non-empty segments. */
  predicate Consumes(segment: PathSegment, part: seq<string>) {
    match segment
    case Literal(text) => part == [text]
    case One => |part| == 1 && part[0] != ""
    case Many => forall i :: 0 <= i < |part| ==> part[i] != ""
  }

  /** The first segment stands for the first `k` of the path, the others for the rest. */
  ghost predicate StartsWith(pattern: seq<PathSegment>, path: seq<string>, k: int)
    requires pattern != []
    decreases |pattern|, 0
  {
    0 <= k <= |path| && Consumes(pattern[0], path[..k]) && Matches(pattern[1..], path[k..])
  }

  /** The meaning of a pattern: the path splits into runs that its segments stand for, in order. */
  ghost predicate Matches(pattern: seq<PathSegment>, path: seq<string>)
    decreases |pattern|, 1
  {
    if pattern == [] then path == [] else exists k :: StartsWith(pattern, path, k)
  }

  ghost predicate EndsWith(pattern: seq<PathSegment>, segment: PathSegment, path: seq<string>, k: int) {
    0 <= k <= |path| && Matches(pattern, path[..k]) && Consumes(segment, path[k..])
  }

  lemma OneRun(segment: PathSegment, path: seq<string>)
    ensures StartsWith([segment], path, |path|) <==> Consumes(segment, path)
    ensures EndsWith([], segment, path, 0) <==> Consumes(segment, path)
  {
    assert path[..|path|] == path && path[|path|..] == [] && path[..0] == [] && path[0..] == path;
  }

  lemma OneSegment(segment: PathSegment, path: seq<string>)
    ensures Matches([segment], path) <==> Consumes(segment, path)
    ensures (exists k :: EndsWith([], segment, path, k)) <==> Consumes(segment, path)
  {
    OneRun(segment, path);
    if k :| StartsWith([segment], path, k) {
      assert [segment][1..] == [] && Matches([], path[k..]);
      assert path[..k] == path;
    }
  }

  lemma HeadThenEnd(pattern: seq<PathSegment>, segment: PathSegment, path: seq<string>, k: nat, j: nat)
    requires pattern != [] && k <= |path| && Consumes(pattern[0], path[..k])
    requires EndsWith(pattern[1..], segment, path[k..], j)
    ensures EndsWith(pattern, segment, path, k + j)
  {
    var head := path[..k + j];
    assert head[..k] == path[..k] && head[k..] == path[k..][..j] && path[k + j..] == path[k..][j..];
    assert StartsWith(pattern, head, k);
  }

  lemma EndAfterHead(pattern: seq<PathSegment>, segment: PathSegment, path: seq<string>, j: nat) returns (k: nat)
    requires pattern != [] && EndsWith(pattern, segment, path, j)
    ensures k <= j <= |path| && Consumes(pattern[0], path[..k])
    ensures EndsWith(pattern[1..], segment, path[k..], j - k)
  {
    var head := path[..j];
    assert Matches(pattern, head);
    var m :| StartsWith(pattern, head, m);
    k := m;
    assert head[..k] == path[..k] && head[k..] == path[k..][..j - k] && path[j..] == path[k..][j - k..];
  }

  /** A pattern may as well be read from its end. */
  lemma {:induction false} MatchesSnoc(pattern: seq<PathSegment>, segment: PathSegment, path: seq<string>)
    ensures Matches(pattern + [segment], path) <==> exists k :: EndsWith(pattern, segment, path, k)
    decreases |pattern|
  {
    hide Consumes;
    hide EndsWith;
    var longer := pattern + [segment];
    if pattern == [] {
      assert longer == [segment];
      OneSegment(segment, path);
    } else {
      assert longer[0] == pattern[0] && longer[1..] == pattern[1..] + [segment];
      if k :| StartsWith(longer, path, k) {
        MatchesSnoc(pattern[1..], segment, path[k..]);
        var j :| EndsWith(pattern[1..], segment, path[k..], j);
        EndInRange(pattern[1..], segment, path[k..], j);
        HeadThenEnd(pattern, segment, path, k, j);
      }
      if j :| EndsWith(pattern, segment, path, j) {
        EndInRange(pattern, segment, path, j);
        var k := EndAfterHead(pattern, segment, path, j);
        MatchesSnoc(pattern[1..], segment, path[k..]);
        assert StartsWith(longer, path, k);
      }
    }
  }

  lemma EndInRange(pattern: seq<PathSegment>, segment: PathSegment, path: seq<string>, k: int)
    requires EndsWith(pattern, segment, path, k)
    ensures 0 <= k <= |path|
  {
  }

  /** The path up to `t` ends in a run for segment `i` that starts before `bound`. */
  ghost predicate Reached(pattern: seq<PathSegment>, path: seq<string>, i: nat, bound: int, t: int)
    requires i < |pattern| && 0 <= t <= |path|
  {
    exists j :: j < bound && EndsWith(pattern[..i], pattern[i], path[..t], j)
  }

  lemma RowCompletes(pattern: seq<PathSegment>, path: seq<string>, i: nat, t: nat)
    requires i < |pattern| && t <= |path|
    ensures Reached(pattern, path, i, |path| + 1, t) <==> Matches(pattern[..i + 1], path[..t])
  {
    assert pattern[..i + 1] == pattern[..i] + [pattern[i]];
    MatchesSnoc(pattern[..i], pattern[i], path[..t]);
  }

  /** Column `j` contributes exactly the ends of the runs that start at `j`. */
  lemma ReachedStep(pattern: seq<PathSegment>, path: seq<string>, i: nat, j: nat, t: nat)
    requires i < |pattern| && j <= |path| && t <= |path|
    ensures Reached(pattern, path, i, j + 1, t) <==>
            || Reached(pattern, path, i, j, t)
            || (j <= t && Matches(pattern[..i], path[..j]) && Consumes(pattern[i], path[j..t]))
  {
    var now := j <= t && Matches(pattern[..i], path[..j]) && Consumes(pattern[i], path[j..t]);
    assert EndsWith(pattern[..i], pattern[i], path[..t], j) <==> now by {
      if j <= t {
        assert path[..t][..j] == path[..j] && path[..t][j..] == path[j..t];
      }
    }
  }

  ghost predicate RowDone(dp: array2<bool>, pattern: seq<PathSegment>, path: seq<string>, i: nat)
    requires dp.Length0 == |pattern| + 1 && dp.Length1 == |path| + 1 && i <= |pattern|
    reads dp
  {
    forall j :: 0 <= j <= |path| ==> (dp[i, j] <==> Matches(pattern[..i], path[..j]))
  }

  /** Sets, in row `row`, the ends of the runs of `segment` that start at `j`. */
  method MarkFrom(dp: array2<bool>, row: nat, segment: PathSegment, path: seq<string>, j: nat)
    requires row < dp.Length0 && dp.Length1 == |path| + 1 && j <= |path|
    modifies dp
    ensures forall t :: 0 <= t <= |path| ==>
                          (dp[row, t] <==> old(dp[row, t]) || (j <= t && Consumes(segment, path[j..t])))
    ensures forall r, t :: 0 <= r < dp.Length0 && r != row && 0 <= t <= |path| ==> dp[r, t] == old(dp[r, t])
  {
    match segment {
      case Literal(text) =>
        if j < |path| && path[j] == text {
          dp[row, j + 1] := true;
        }
        assert forall t :: j <= t <= |path| && Consumes(segment, path[j..t]) ==> t == j + 1;
        assert j < |path| ==> path[j..j + 1] == [path[j]];
      case One =>
        if j < |path| && path[j] != "" {
          dp[row, j + 1] := true;
        }
        assert forall t :: j <= t <= |path| && Consumes(segment, path[j..t]) ==> t == j + 1;
      case Many =>
        dp[row, j] := true;
        var k := j;
        while k < |path| && path[k] != ""
          invariant j <= k <= |path|
          invariant forall p :: j <= p < k ==> path[p] != ""
          invariant forall t :: 0 <= t <= |path| ==> (dp[row, t] <==> old(dp[row, t]) || j <= t <= k)
          invariant forall r, t :: 0 <= r < dp.Length0 && r != row && 0 <= t <= |path| ==> dp[r, t] == old(dp[r, t])
        {
          dp[row, k + 1] := true;
          k := k + 1;
        }
        forall t | j <= t <= |path| ensures Consumes(segment, path[j..t]) <==> t <= k {
          RunEnds(path, j, k, t);
        }
    }
  }

  lemma RunEnds(path: seq<string>, j: nat, k: nat, t: nat)
    requires j <= k <= |path| && j <= t <= |path|
    requires forall p :: j <= p < k ==> path[p] != ""
    requires k < |path| ==> path[k] == ""
    ensures Consumes(Many, path[j..t]) <==> t <= k
  {
    if t <= k {
      assert forall p :: 0 <= p < t - j ==> path[j..t][p] == path[j + p];
    } else {
      assert path[j..t][k - j] == path[k];
    }
  }

  method FillRow(dp: array2<bool>, pattern: seq<PathSegment>, path: seq<string>, i: nat, row: nat)
    requires dp.Length0 == |pattern| + 1 && dp.Length1 == |path| + 1 && row == i + 1 <= |pattern|
    requires RowDone(dp, pattern, path, i)
    requires forall t :: 0 <= t <= |path| ==> !dp[row, t]
    modifies dp
    ensures RowDone(dp, pattern, path, row)
    ensures forall r, t :: 0 <= r < dp.Length0 && r != row && 0 <= t <= |path| ==> dp[r, t] == old(dp[r, t])
  {
    var j := 0;
    assert forall t :: 0 <= t <= |path| ==> !Reached(pattern, path, i, 0, t);
    while j <= |path|
      invariant 0 <= j <= |path| + 1
      invariant forall r, t :: 0 <= r < dp.Length0 && r != row && 0 <= t <= |path| ==> dp[r, t] == old(dp[r, t])
      invariant forall t :: 0 <= t <= |path| ==> (dp[row, t] <==> Reached(pattern, path, i, j, t))
    {
      assert dp[i, j] <==> Matches(pattern[..i], path[..j]);
      if dp[i, j] {
        MarkFrom(dp, row, pattern[i], path, j);
      }
      j := j + 1;
      forall t | 0 <= t <= |path| ensures dp[row, t] <==> Reached(pattern, path, i, j, t) {
        ReachedStep(pattern, path, i, j - 1, t);
      }
    }
    forall t | 0 <= t <= |path| ensures dp[row, t] <==> Matches(pattern[..i + 1], path[..t]) {
      RowCompletes(pattern, path, i, t);
    }
  }

  /** Fills the table row by row; its last entry is the meaning of the pattern. */
  method GlobMatches(pattern: seq<PathSegment>, path: seq<string>) returns (matched: bool)
    ensures matched <==> Matches(pattern, path)
  {
    var dp := new bool[|pattern| + 1, |path| + 1]((_, _) => false);
    dp[0, 0] := true;
    forall j | 0 <= j <= |path| ensures Matches(pattern[..0], path[..j]) <==> j == 0 {
    }
    var i := 0;
    while i < |pattern|
      invariant 0 <= i <= |pattern|
      invariant RowDone(dp, pattern, path, i)
      invariant forall r, t :: i < r <= |pattern| && 0 <= t <= |path| ==> !dp[r, t]
    {
      FillRow(dp, pattern, path, i, i + 1);
      i := i + 1;
    }
    assert pattern[..|pattern|] == pattern && path[..|path|] == path;
    matched := dp[|pattern|, |path|];
  }

  /** A segment of a rule's path: `*` and `**` are wild, anything else is itself. */
  function SegmentOf(text: string): PathSegment {
    if text == "*" then One else if text == "**" then Many else Literal(text)
  }
}
