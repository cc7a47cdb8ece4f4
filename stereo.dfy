/**
 * The frame guards and the correspondence-candidate scan of
 * MarkerTracking::get3DPointsFrom2DPoints (src/markerTracking/MarkerTracking.cpp):
 * every left point is paired with every right point in row-major order, and
 * the first pairs whose epipolar residual is small enough become the
 * candidates that are triangulated into 3D points.
 */
module Stereo {

  /** max_err_dist_candidate */
  const MaxResidual: real := 5.0
  /** num_max_matches */
  const MaxMatches := 200

  function Abs(x: real): real {
    if x < 0.0 then -x else x
  }

  /** The number of 2D points per image above which a frame counts as saturated. */
  function Max2DPoints(numTemplates: nat): nat {
    100 + numTemplates * 10
  }

  /** The pairs (l, r) with r < numRight of left point l, in order. */
  function RowPairs(l: nat, numRight: nat): (s: seq<(nat, nat)>)
    ensures |s| == numRight
    ensures forall k :: 0 <= k < numRight ==> s[k] == (l, k)
  {
    if numRight == 0 then [] else RowPairs(l, numRight - 1) + [(l, numRight - 1)]
  }

  /** All pairs of the first numLeft left points with the right points, row-major. */
  function Pairs(numLeft: nat, numRight: nat): seq<(nat, nat)> {
    if numLeft == 0 then [] else Pairs(numLeft - 1, numRight) + RowPairs(numLeft - 1, numRight)
  }

  predicate IsCandidate(residual: (nat, nat) -> real, p: (nat, nat)) {
    Abs(residual(p.0, p.1)) < MaxResidual
  }

  /** The pairs of the scan that pass the residual test, in scan order. */
  function Filter(residual: (nat, nat) -> real, pairs: seq<(nat, nat)>): (r: seq<(nat, nat)>)
    ensures |r| <= |pairs|
    ensures forall p :: p in r <==> p in pairs && IsCandidate(residual, p)
  {
    if pairs == [] then []
    else
      var front := Filter(residual, pairs[..|pairs| - 1]);
      var p := pairs[|pairs| - 1];
      assert forall q :: q in pairs <==> q in pairs[..|pairs| - 1] || q == p;
      if IsCandidate(residual, p) then front + [p] else front
  }

  function Take<T>(s: seq<T>, n: nat): (r: seq<T>)
    ensures |r| <= n
  {
    if |s| <= n then s else s[..n]
  }

  /** The candidates of the scan: the first MaxMatches passing pairs in row-major order. */
  function Candidates(numLeft: nat, numRight: nat, residual: (nat, nat) -> real): seq<(nat, nat)> {
    Take(Filter(residual, Pairs(numLeft, numRight)), MaxMatches)
  }

  /** p comes before q in the row-major scan. */
  predicate Before(p: (nat, nat), q: (nat, nat)) {
    p.0 < q.0 || (p.0 == q.0 && p.1 < q.1)
  }

  predicate ScanOrdered(s: seq<(nat, nat)>) {
    forall i, j :: 0 <= i < j < |s| ==> Before(s[i], s[j])
  }

  predicate InRange(p: (nat, nat), numLeft: nat, numRight: nat) {
    p.0 < numLeft && p.1 < numRight
  }

  /** The pairs of the scan are the index pairs in range, each once, in row-major order. */
  lemma {:induction false} PairsMeaning(numLeft: nat, numRight: nat)
    ensures ScanOrdered(Pairs(numLeft, numRight))
    ensures forall p :: p in Pairs(numLeft, numRight) <==> InRange(p, numLeft, numRight)
  {
    if numLeft > 0 {
      PairsMeaning(numLeft - 1, numRight);
      var front, row := Pairs(numLeft - 1, numRight), RowPairs(numLeft - 1, numRight);
      forall i, j | 0 <= i < j < |front + row|
        ensures Before((front + row)[i], (front + row)[j])
      {
        if j < |front| {
          assert (front + row)[i] == front[i] && (front + row)[j] == front[j];
        } else if i < |front| {
          assert front[i] in front;
        }
      }
      forall p: (nat, nat) | InRange(p, numLeft, numRight)
        ensures p in front + row
      {
        if p.0 == numLeft - 1 {
          assert row[p.1] == p;
        }
      }
    }
  }

  /** A subsequence kept by Filter stays in order. */
  lemma {:induction false} FilterOrdered(residual: (nat, nat) -> real, pairs: seq<(nat, nat)>)
    requires ScanOrdered(pairs)
    ensures ScanOrdered(Filter(residual, pairs))
  {
    if pairs != [] {
      var n := |pairs| - 1;
      var front := pairs[..n];
      assert ScanOrdered(front) by {
        forall i, j | 0 <= i < j < |front|
          ensures Before(front[i], front[j])
        {
          assert front[i] == pairs[i] && front[j] == pairs[j];
        }
      }
      FilterOrdered(residual, front);
      var f := Filter(residual, front);
      forall i | 0 <= i < |f|
        ensures Before(f[i], pairs[n])
      {
        assert f[i] in front;
        var k :| 0 <= k < n && front[k] == f[i];
        assert pairs[k] == f[i];
      }
    }
  }

  /**
   * The candidates have residual below 5, lie in range and come in scan order,
   * there are at most 200 of them, and when there are fewer every passing pair is
   * among them.
   */
  lemma CandidatesMeaning(numLeft: nat, numRight: nat, residual: (nat, nat) -> real)
    ensures var c := Candidates(numLeft, numRight, residual);
            |c| <= MaxMatches
            && ScanOrdered(c)
            && (forall p :: p in c ==> InRange(p, numLeft, numRight) && IsCandidate(residual, p))
            && (|c| < MaxMatches ==>
                  forall p :: InRange(p, numLeft, numRight) && IsCandidate(residual, p) ==> p in c)
  {
    PairsMeaning(numLeft, numRight);
    var all := Filter(residual, Pairs(numLeft, numRight));
    FilterOrdered(residual, Pairs(numLeft, numRight));
    var c := Candidates(numLeft, numRight, residual);
    forall p | p in c
      ensures p in all
    {
      if |all| > MaxMatches {
        var k :| 0 <= k < |c| && c[k] == p;
        assert all[k] == p;
      }
    }
  }

  lemma {:induction false} NoPairs(numLeft: nat, numRight: nat)
    requires numLeft == 0 || numRight == 0
    ensures Pairs(numLeft, numRight) == []
  {
    if numLeft > 0 {
      NoPairs(numLeft - 1, numRight);
    }
  }

  lemma FilterAppend(residual: (nat, nat) -> real, pairs: seq<(nat, nat)>, p: (nat, nat))
    ensures Filter(residual, pairs + [p])
         == if IsCandidate(residual, p) then Filter(residual, pairs) + [p] else Filter(residual, pairs)
  {
    assert (pairs + [p])[..|pairs|] == pairs;
  }

  lemma TakeAppend<T>(s: seq<T>, x: T, n: nat)
    ensures Take(s + [x], n) == if |s| < n then Take(s, n) + [x] else Take(s, n)
    ensures |Take(s, n)| < n <==> |s| < n
  {
    if |s| >= n {
      assert (s + [x])[..n] == s[..n];
    }
  }

  /** One pass of the inner loop: pair (row, col) is appended exactly when it passes and there is room. */
  lemma ScanStep(residual: (nat, nat) -> real, prefix: seq<(nat, nat)>, row: nat, col: nat, matches: seq<(nat, nat)>)
    requires matches == Take(Filter(residual, prefix + RowPairs(row, col)), MaxMatches)
    ensures (if Abs(residual(row, col)) < MaxResidual && |matches| < MaxMatches then matches + [(row, col)] else matches)
         == Take(Filter(residual, prefix + RowPairs(row, col + 1)), MaxMatches)
  {
    var before := prefix + RowPairs(row, col);
    assert prefix + RowPairs(row, col + 1) == before + [(row, col)];
    FilterAppend(residual, before, (row, col));
    TakeAppend(Filter(residual, before), (row, col), MaxMatches);
  }

  /** The inner loop over the right points for left point row, continuing the matches of the rows before. */
  method ScanRow(row: nat, numRight: nat, residual: (nat, nat) -> real, matches0: seq<(nat, nat)>)
    returns (matches: seq<(nat, nat)>)
    requires matches0 == Take(Filter(residual, Pairs(row, numRight)), MaxMatches)
    ensures matches == Take(Filter(residual, Pairs(row + 1, numRight)), MaxMatches)
  {
    matches := matches0;
    ghost var prefix := Pairs(row, numRight);
    assert prefix + RowPairs(row, 0) == prefix;
    var col := 0;
    while col < numRight
      invariant col <= numRight
      invariant matches == Take(Filter(residual, prefix + RowPairs(row, col)), MaxMatches)
    {
      ScanStep(residual, prefix, row, col, matches);
      if Abs(residual(row, col)) < MaxResidual && |matches| < MaxMatches {
        matches := matches + [(row, col)];
      }
      col := col + 1;
    }
  }

  /** The scan loop over rows (left points) and columns (right points). */
  method ScanCandidates(numLeft: nat, numRight: nat, residual: (nat, nat) -> real) returns (matches: seq<(nat, nat)>)
    ensures matches == Candidates(numLeft, numRight, residual)
  {
    matches := [];
    var row := 0;
    while row < numLeft
      invariant row <= numLeft
      invariant matches == Take(Filter(residual, Pairs(row, numRight)), MaxMatches)
    {
      matches := ScanRow(row, numRight, residual, matches);
      row := row + 1;
    }
  }

  /**
   * get3DPointsFrom2DPoints: empty when the system is not configured, when both
   * images hold more than 100 + 10 * numTemplates points, when either holds
   * none, or when no pair passes; otherwise one triangulated point per candidate.
   */
  method Get3DPointsFrom2DPoints<P>(configured: bool, numTemplates: nat, numLeft: nat, numRight: nat,
                                    residual: (nat, nat) -> real, triangulate: (nat, nat) -> P)
    returns (points: seq<P>)
    ensures !configured ==> points == []
    ensures numLeft > Max2DPoints(numTemplates) && numRight > Max2DPoints(numTemplates) ==> points == []
    ensures numLeft == 0 || numRight == 0 ==> points == []
    ensures configured && !(numLeft > Max2DPoints(numTemplates) && numRight > Max2DPoints(numTemplates)) ==>
              var c := Candidates(numLeft, numRight, residual);
              |points| == |c| && forall i :: 0 <= i < |c| ==> points[i] == triangulate(c[i].0, c[i].1)
  {
    if !configured {
      return [];
    }
    var max2D := Max2DPoints(numTemplates);
    if numLeft > max2D && numRight > max2D {
      return [];
    }
    if numLeft == 0 || numRight == 0 {
      NoPairs(numLeft, numRight);
      return [];
    }
    var matches := ScanCandidates(numLeft, numRight, residual);
    if |matches| == 0 {
      return [];
    }
    points := [];
    var k := 0;
    while k < |matches|
      invariant k <= |matches|
      invariant |points| == k && forall i :: 0 <= i < k ==> points[i] == triangulate(matches[i].0, matches[i].1)
    {
      points := points + [triangulate(matches[k].0, matches[k].1)];
      k := k + 1;
    }
  }
}
