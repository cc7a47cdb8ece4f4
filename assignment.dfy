/**
 * The assignment tables of the template search (src/markerTracking/MarkerTracking.cpp,
 * fit3DPointsToObjectTemplate): column k of best_template_idx, best_world_idx,
 * best_template_to_world and best_world_to_template holds the best assignment
 * of k + 1 template points to k + 1 world points found so far, and
 * best_residuum[k] its residual, the sum of the squared differences of the
 * matched edge lengths.
 */
module Assignment {
  import opened Extended
  import opened TemplateEdges

  /** One column of the four tables; -1 marks an empty entry. */
  datatype Column = Column(templateIdx: seq<int>, worldIdx: seq<int>,
                           templateToWorld: seq<int>, worldToTemplate: seq<int>)

  function Unassigned(n: nat): (r: seq<int>)
    ensures |r| == n && forall i :: 0 <= i < n ==> r[i] == -1
  {
    seq(n, _ => -1)
  }

  /** A column as the tables are initialised: every entry -1. */
  function EmptyColumn(numTemp: nat, numP: nat): Column {
    Column(Unassigned(numTemp), Unassigned(numP), Unassigned(numTemp), Unassigned(numP))
  }

  /**
   * One side of a column: the first n entries of idx are distinct points
   * below size, the entries after them -1.
   */
  predicate IndexList(idx: seq<int>, n: nat, size: nat) {
    |idx| == size && n <= size
    && (forall p :: 0 <= p < n ==> 0 <= idx[p] < size)
    && (forall p :: n <= p < size ==> idx[p] == -1)
    && (forall p, q :: 0 <= p < q < n ==> idx[p] != idx[q])
  }

  /**
   * The map of one side: each of the first n points of idx maps to its
   * partner at the same row of other, every other point to -1.
   */
  predicate MapsTo(m: seq<int>, idx: seq<int>, other: seq<int>, n: nat) {
    n <= |idx| && n <= |other|
    && (forall p :: 0 <= p < n ==> 0 <= idx[p] < |m| && m[idx[p]] == other[p])
    && (forall t :: 0 <= t < |m| && t !in idx[..n] ==> m[t] == -1)
  }

  /**
   * The first n rows of the index tables pair distinct template points with
   * distinct world points, the rows below are empty, and the two maps are
   * the same pairing seen from each side, -1 for every unpaired point.
   */
  predicate ValidColumn(col: Column, n: nat, numTemp: nat, numP: nat) {
    IndexList(col.templateIdx, n, numTemp) && IndexList(col.worldIdx, n, numP)
    && |col.templateToWorld| == numTemp && |col.worldToTemplate| == numP
    && MapsTo(col.templateToWorld, col.templateIdx, col.worldIdx, n)
    && MapsTo(col.worldToTemplate, col.worldIdx, col.templateIdx, n)
  }

  /** The list x, y, z in rows 0 to 2 of an otherwise empty list. */
  function ThreeRows(x: int, y: int, z: int, size: nat): (r: seq<int>)
    requires 3 <= size
    ensures |r| == size && r[..3] == [x, y, z]
  {
    Unassigned(size)[0 := x][1 := y][2 := z]
  }

  /** The map sending x, y, z to a, b, c and every other point to -1. */
  function ThreeMap(x: nat, y: nat, z: nat, a: int, b: int, c: int, size: nat): (r: seq<int>)
    requires x < size && y < size && z < size
  {
    Unassigned(size)[x := a][y := b][z := c]
  }

  /** Three distinct points below size leave room for three rows. */
  lemma ThreeFit(x: nat, y: nat, z: nat, size: nat)
    requires x < size && y < size && z < size && x != y && x != z && y != z
    ensures 3 <= size
  {
  }

  /** The column the triangle step writes: (x, y, z) paired with (a, b, c). */
  function TriangleColumn(x: nat, y: nat, z: nat, a: nat, b: nat, c: nat, numTemp: nat, numP: nat): Column
    requires x < numTemp && y < numTemp && z < numTemp && x != y && x != z && y != z
    requires a < numP && b < numP && c < numP && a != b && a != c && b != c
  {
    ThreeFit(x, y, z, numTemp);
    ThreeFit(a, b, c, numP);
    Column(ThreeRows(x, y, z, numTemp), ThreeRows(a, b, c, numP),
           ThreeMap(x, y, z, a, b, c, numTemp), ThreeMap(a, b, c, x, y, z, numP))
  }

  /** The column an extension step writes: column n - 1 with the pair (i, j) added as row n. */
  function ExtendColumn(col: Column, n: nat, i: nat, j: nat): Column
    requires n < |col.templateIdx| && n < |col.worldIdx|
    requires i < |col.templateToWorld| && j < |col.worldToTemplate|
  {
    Column(col.templateIdx[n := i], col.worldIdx[n := j],
           col.templateToWorld[i := j], col.worldToTemplate[j := i])
  }

  /** Three distinct points in rows 0 to 2 form an index list. */
  lemma ThreeRowsList(x: nat, y: nat, z: nat, size: nat)
    requires x < size && y < size && z < size && x != y && x != z && y != z
    ensures 3 <= size && IndexList(ThreeRows(x, y, z, size), 3, size)
  {
  }

  /** The map of the triangle sends each of its three points to its partner, the rest to -1. */
  lemma ThreeMapMaps(x: nat, y: nat, z: nat, a: nat, b: nat, c: nat, size: nat, otherSize: nat)
    requires x < size && y < size && z < size && x != y && x != z && y != z
    requires 3 <= otherSize
    ensures 3 <= size
    ensures MapsTo(ThreeMap(x, y, z, a, b, c, size), ThreeRows(x, y, z, size), ThreeRows(a, b, c, otherSize), 3)
  {
    ThreeFit(x, y, z, size);
    var m, idx, other := ThreeMap(x, y, z, a, b, c, size), ThreeRows(x, y, z, size), ThreeRows(a, b, c, otherSize);
    assert idx[..3] == [x, y, z] && other[..3] == [a, b, c];
    assert idx[0] == x && idx[1] == y && idx[2] == z by {
      assert idx[..3][0] == x && idx[..3][1] == y && idx[..3][2] == z;
    }
    assert other[0] == a && other[1] == b && other[2] == c by {
      assert other[..3][0] == a && other[..3][1] == b && other[..3][2] == c;
    }
  }

  lemma TriangleValid(x: nat, y: nat, z: nat, a: nat, b: nat, c: nat, numTemp: nat, numP: nat)
    requires x < numTemp && y < numTemp && z < numTemp && x != y && x != z && y != z
    requires a < numP && b < numP && c < numP && a != b && a != c && b != c
    ensures ValidColumn(TriangleColumn(x, y, z, a, b, c, numTemp, numP), 3, numTemp, numP)
  {
    ThreeRowsList(x, y, z, numTemp);
    ThreeRowsList(a, b, c, numP);
    ThreeMapMaps(x, y, z, a, b, c, numTemp, numP);
    ThreeMapMaps(a, b, c, x, y, z, numP, numTemp);
  }

  /** The triangle column's three pairs, in order. */
  lemma TrianglePairs(x: nat, y: nat, z: nat, a: nat, b: nat, c: nat, numTemp: nat, numP: nat)
    requires x < numTemp && y < numTemp && z < numTemp && x != y && x != z && y != z
    requires a < numP && b < numP && c < numP && a != b && a != c && b != c
    ensures TriangleColumn(x, y, z, a, b, c, numTemp, numP).templateIdx[..3] == [x, y, z]
    ensures TriangleColumn(x, y, z, a, b, c, numTemp, numP).worldIdx[..3] == [a, b, c]
  {
    ThreeFit(x, y, z, numTemp);
    ThreeFit(a, b, c, numP);
  }

  /** Distinct values below numP number at most numP. */
  lemma {:induction false} Pigeonhole(s: seq<int>, numP: nat)
    requires forall p :: 0 <= p < |s| ==> 0 <= s[p] < numP
    requires forall p, q :: 0 <= p < q < |s| ==> s[p] != s[q]
    ensures |s| <= numP
    decreases |s|
  {
    if s != [] {
      var n := |s| - 1;
      var v := s[n];
      // the other values, with those above v moved down by one, lie below numP - 1
      var rest := seq(n, p requires 0 <= p < n => if s[p] > v then s[p] - 1 else s[p]);
      forall p | 0 <= p < n
        ensures 0 <= rest[p] < numP - 1
      {
        assert s[p] != v;
      }
      forall p, q | 0 <= p < q < n
        ensures rest[p] != rest[q]
      {
        assert s[p] != s[q] && s[p] != v && s[q] != v;
      }
      Pigeonhole(rest, numP - 1);
    }
  }

  /** A point whose map entry is negative is not among the first n of idx. */
  lemma FreePoint(m: seq<int>, idx: seq<int>, other: seq<int>, n: nat, otherSize: nat, i: nat)
    requires MapsTo(m, idx, other, n) && IndexList(other, n, otherSize)
    requires i < |m| && m[i] < 0
    ensures i !in idx[..n]
  {
    forall p | 0 <= p < n
      ensures idx[..n][p] != i
    {
      assert m[idx[p]] == other[p] >= 0;
    }
  }

  /** A point below size missing from the first n of an index list leaves room for one row more. */
  lemma RoomForOne(idx: seq<int>, n: nat, size: nat, j: nat)
    requires IndexList(idx, n, size) && j < size && j !in idx[..n]
    ensures n < size
  {
    var s := idx[..n] + [j];
    forall p | 0 <= p < |s|
      ensures 0 <= s[p] < size
    {
      if p < n {
        assert s[p] == idx[p];
      }
    }
    forall p, q | 0 <= p < q < |s|
      ensures s[p] != s[q]
    {
      if q < n {
        assert s[p] == idx[p] && s[q] == idx[q];
      } else {
        assert s[p] == idx[..n][p];
      }
    }
    Pigeonhole(s, size);
  }

  /** A world point whose map entry is empty is unpaired, so the pairs leave room for one more. */
  lemma FreeWorldPoint(col: Column, n: nat, numTemp: nat, numP: nat, j: nat)
    requires ValidColumn(col, n, numTemp, numP)
    requires j < numP && col.worldToTemplate[j] < 0
    ensures j !in col.worldIdx[..n]
    ensures n < numP
  {
    FreePoint(col.worldToTemplate, col.worldIdx, col.templateIdx, n, numTemp, j);
    RoomForOne(col.worldIdx, n, numP, j);
  }

  /** A template point whose map entry is empty is unpaired. */
  lemma FreeTemplatePoint(col: Column, n: nat, numTemp: nat, numP: nat, i: nat)
    requires ValidColumn(col, n, numTemp, numP)
    requires i < numTemp && col.templateToWorld[i] < 0
    ensures i !in col.templateIdx[..n]
  {
    FreePoint(col.templateToWorld, col.templateIdx, col.worldIdx, n, numP, i);
  }

  /** Writing a point missing from the list into row n extends the list by it. */
  lemma ExtendList(idx: seq<int>, n: nat, size: nat, i: nat)
    requires IndexList(idx, n, size) && n < size && i < size && i !in idx[..n]
    ensures IndexList(idx[n := i], n + 1, size)
    ensures idx[n := i][..n + 1] == idx[..n] + [i]
  {
    var ext := idx[n := i];
    assert ext[..n + 1] == idx[..n] + [i];
    forall p | 0 <= p < n
      ensures ext[p] != i
    {
      assert idx[p] == idx[..n][p];
    }
  }

  /** Mapping a point missing from the list to j, written with its partner into row n, extends the map. */
  lemma ExtendMap(m: seq<int>, idx: seq<int>, other: seq<int>, n: nat, i: nat, j: int)
    requires MapsTo(m, idx, other, n) && n < |idx| && n < |other|
    requires i < |m| && i !in idx[..n]
    ensures MapsTo(m[i := j], idx[n := i], other[n := j], n + 1)
  {
    var m', idx', other' := m[i := j], idx[n := i], other[n := j];
    assert idx'[..n + 1] == idx[..n] + [i];
    forall p | 0 <= p < n
      ensures m'[idx'[p]] == other'[p]
    {
      assert idx[p] in idx[..n];
    }
    forall t | 0 <= t < |m'| && t !in idx'[..n + 1]
      ensures m'[t] == -1
    {
      assert t !in idx[..n];
    }
  }

  /** Adding an unpaired template point and an unpaired world point keeps the column valid. */
  lemma ExtendValid(col: Column, n: nat, numTemp: nat, numP: nat, i: nat, j: nat)
    requires ValidColumn(col, n, numTemp, numP) && n < numTemp
    requires i < numTemp && col.templateToWorld[i] < 0
    requires j < numP && col.worldToTemplate[j] < 0
    ensures n < numP
    ensures ValidColumn(ExtendColumn(col, n, i, j), n + 1, numTemp, numP)
    ensures ExtendColumn(col, n, i, j).templateIdx[..n + 1] == col.templateIdx[..n] + [i]
    ensures ExtendColumn(col, n, i, j).worldIdx[..n + 1] == col.worldIdx[..n] + [j]
  {
    FreeWorldPoint(col, n, numTemp, numP, j);
    FreeTemplatePoint(col, n, numTemp, numP, i);
    ExtendList(col.templateIdx, n, numTemp, i);
    ExtendList(col.worldIdx, n, numP, j);
    ExtendMap(col.templateToWorld, col.templateIdx, col.worldIdx, n, i, j);
    ExtendMap(col.worldToTemplate, col.worldIdx, col.templateIdx, n, j, i);
  }

  // ---------------------------------------------------------------------------
  // Residuals

  /** An entry of a matrix, 0 outside it. */
  function At(m: Matrix, r: int, c: int): real {
    if 0 <= r < |m| && 0 <= c < |m[r]| then m[r][c] else 0.0
  }

  /** The world edge between u and v, read from the upper triangle as the search does. */
  function WorldEdge(wEdges: Matrix, u: int, v: int): real {
    if u > v then At(wEdges, v, u) else At(wEdges, u, v)
  }

  function Sq(d: real): real {
    d * d
  }

  /** The term of the pairs (tp, wp) and (tq, wq): squared difference of their edge lengths. */
  function PairTerm(wEdges: Matrix, tEdges: Matrix, tp: int, wp: int, tq: int, wq: int): real {
    Sq(WorldEdge(wEdges, wp, wq) - At(tEdges, tp, tq))
  }

  /** The terms that adding the pair (t, w) to the pairs (ts, ws) brings in. */
  function NewTerms(wEdges: Matrix, tEdges: Matrix, ts: seq<int>, ws: seq<int>, t: int, w: int): real
    requires |ts| == |ws|
  {
    if ts == [] then 0.0
    else
      var n := |ts| - 1;
      NewTerms(wEdges, tEdges, ts[..n], ws[..n], t, w) + PairTerm(wEdges, tEdges, ts[n], ws[n], t, w)
  }

  /** The residual of the pairs (ts[p], ws[p]): one term per two pairs. */
  function Residual(wEdges: Matrix, tEdges: Matrix, ts: seq<int>, ws: seq<int>): real
    requires |ts| == |ws|
  {
    if ts == [] then 0.0
    else
      var n := |ts| - 1;
      Residual(wEdges, tEdges, ts[..n], ws[..n]) + NewTerms(wEdges, tEdges, ts[..n], ws[..n], ts[n], ws[n])
  }

  /** The residual is never negative. */
  lemma {:induction false} ResidualNonNegative(wEdges: Matrix, tEdges: Matrix, ts: seq<int>, ws: seq<int>)
    requires |ts| == |ws|
    ensures Residual(wEdges, tEdges, ts, ws) >= 0.0
  {
    if ts != [] {
      var n := |ts| - 1;
      ResidualNonNegative(wEdges, tEdges, ts[..n], ws[..n]);
      NewTermsNonNegative(wEdges, tEdges, ts[..n], ws[..n], ts[n], ws[n]);
    }
  }

  lemma {:induction false} NewTermsNonNegative(wEdges: Matrix, tEdges: Matrix, ts: seq<int>, ws: seq<int>, t: int, w: int)
    requires |ts| == |ws|
    ensures NewTerms(wEdges, tEdges, ts, ws, t, w) >= 0.0
  {
    if ts != [] {
      var n := |ts| - 1;
      NewTermsNonNegative(wEdges, tEdges, ts[..n], ws[..n], t, w);
      var d := WorldEdge(wEdges, ws[n], w) - At(tEdges, ts[n], t);
      assert Sq(d) >= 0.0 by {
        if d < 0.0 {
          assert Sq(d) == (-d) * (-d);
        }
      }
    }
  }

  /** The residual of the triangle (x, y, z) <-> (a, b, c) is the sum the triangle step computes. */
  lemma TriangleResidual(wEdges: Matrix, tEdges: Matrix, x: int, y: int, z: int, a: int, b: int, c: int)
    ensures Residual(wEdges, tEdges, [x, y, z], [a, b, c])
         == Sq(WorldEdge(wEdges, a, b) - At(tEdges, x, y))
          + Sq(WorldEdge(wEdges, a, c) - At(tEdges, x, z))
          + Sq(WorldEdge(wEdges, b, c) - At(tEdges, y, z))
  {
    assert [x, y, z][..2] == [x, y] && [a, b, c][..2] == [a, b];
    assert [x, y][..1] == [x] && [a, b][..1] == [a];
    assert [x][..0] == [] && [a][..0] == [];
    assert NewTerms(wEdges, tEdges, [x], [a], y, b) == PairTerm(wEdges, tEdges, x, a, y, b);
    assert NewTerms(wEdges, tEdges, [x], [a], z, c) == PairTerm(wEdges, tEdges, x, a, z, c);
    assert NewTerms(wEdges, tEdges, [x, y], [a, b], z, c)
        == PairTerm(wEdges, tEdges, x, a, z, c) + PairTerm(wEdges, tEdges, y, b, z, c);
    assert Residual(wEdges, tEdges, [x], [a]) == 0.0;
  }

  /** Adding a pair adds its new terms to the residual. */
  lemma ExtendResidual(wEdges: Matrix, tEdges: Matrix, ts: seq<int>, ws: seq<int>, t: int, w: int)
    requires |ts| == |ws|
    ensures Residual(wEdges, tEdges, ts + [t], ws + [w])
         == Residual(wEdges, tEdges, ts, ws) + NewTerms(wEdges, tEdges, ts, ws, t, w)
  {
    assert (ts + [t])[..|ts|] == ts && (ws + [w])[..|ws|] == ws;
  }

  // ---------------------------------------------------------------------------
  // The cost of a candidate pair (:760-793)

  /**
   * new_residuum of the candidate pair (i, j) against the pairs (ts, ws): the
   * squared edge differences, or infinity as soon as one world edge leaves
   * the band or differs from its template edge by more than max_distance.
   */
  function ExtensionCost(wEdges: Matrix, tEdges: Matrix, band: Band, ts: seq<int>, ws: seq<int>, i: int, j: int): ExtReal
    requires |ts| == |ws|
  {
    if ts == [] then Fin(0.0)
    else
      var n := |ts| - 1;
      var prev := ExtensionCost(wEdges, tEdges, band, ts[..n], ws[..n], i, j);
      var w := WorldEdge(wEdges, ws[n], j);
      var d := Abs(w - At(tEdges, i, ts[n]));
      if prev.Inf? || !InBand(w, band) || d > MaxDistance then Inf else Fin(prev.v + Sq(d))
  }

  /** The pair (i, j) fits: every edge to an already paired point is in the band and close to its template edge. */
  predicate Fits(wEdges: Matrix, tEdges: Matrix, band: Band, ts: seq<int>, ws: seq<int>, i: int, j: int)
    requires |ts| == |ws|
  {
    forall p :: 0 <= p < |ts| ==>
      InBand(WorldEdge(wEdges, ws[p], j), band) && Abs(WorldEdge(wEdges, ws[p], j) - At(tEdges, i, ts[p])) <= MaxDistance
  }

  /** A matrix equal to its transpose. */
  ghost predicate Symmetric(m: Matrix) {
    forall r, c :: At(m, r, c) == At(m, c, r)
  }

  lemma SymmetricFromEntries(m: Matrix, n: nat)
    requires IsSquare(m, n)
    requires forall r, c :: 0 <= r < n && 0 <= c < n ==> m[r][c] == m[c][r]
    ensures Symmetric(m)
  {
  }

  lemma SqAbs(e: real)
    ensures Sq(Abs(e)) == Sq(e)
  {
    if e < 0.0 {
      assert Sq(Abs(e)) == (-e) * (-e);
    }
  }

  /** The pair fits the pairs (ts, ws) exactly when it fits all but the last and the last too. */
  lemma FitsStep(wEdges: Matrix, tEdges: Matrix, band: Band, ts: seq<int>, ws: seq<int>, i: int, j: int)
    requires |ts| == |ws| && ts != []
    ensures var n := |ts| - 1;
            (Fits(wEdges, tEdges, band, ts, ws, i, j)
             <==> Fits(wEdges, tEdges, band, ts[..n], ws[..n], i, j)
                  && InBand(WorldEdge(wEdges, ws[n], j), band)
                  && Abs(WorldEdge(wEdges, ws[n], j) - At(tEdges, i, ts[n])) <= MaxDistance)
  {
    var n := |ts| - 1;
    var ts', ws' := ts[..n], ws[..n];
    if Fits(wEdges, tEdges, band, ts, ws, i, j) {
      forall p | 0 <= p < n
        ensures InBand(WorldEdge(wEdges, ws'[p], j), band) && Abs(WorldEdge(wEdges, ws'[p], j) - At(tEdges, i, ts'[p])) <= MaxDistance
      {
        assert ts'[p] == ts[p] && ws'[p] == ws[p];
      }
    }
  }

  /**
   * The cost is finite exactly when the pair fits, and then it is the pair's
   * new terms of the residual.
   */
  lemma {:induction false} CostMeaning(wEdges: Matrix, tEdges: Matrix, band: Band, ts: seq<int>, ws: seq<int>, i: int, j: int)
    requires |ts| == |ws| && Symmetric(tEdges)
    ensures ExtensionCost(wEdges, tEdges, band, ts, ws, i, j).Fin? <==> Fits(wEdges, tEdges, band, ts, ws, i, j)
    ensures ExtensionCost(wEdges, tEdges, band, ts, ws, i, j).Fin? ==>
              ExtensionCost(wEdges, tEdges, band, ts, ws, i, j).v == NewTerms(wEdges, tEdges, ts, ws, i, j)
  {
    if ts != [] {
      var n := |ts| - 1;
      CostMeaning(wEdges, tEdges, band, ts[..n], ws[..n], i, j);
      FitsStep(wEdges, tEdges, band, ts, ws, i, j);
      var e := WorldEdge(wEdges, ws[n], j) - At(tEdges, i, ts[n]);
      assert At(tEdges, i, ts[n]) == At(tEdges, ts[n], i);
      SqAbs(e);
    }
  }

  /** Once a prefix of the pairs makes the cost infinite, so do all the pairs. */
  lemma {:induction false} CostInfSticks(wEdges: Matrix, tEdges: Matrix, band: Band, ts: seq<int>, ws: seq<int>, m: nat, i: int, j: int)
    requires |ts| == |ws| && m <= |ts|
    requires ExtensionCost(wEdges, tEdges, band, ts[..m], ws[..m], i, j).Inf?
    ensures ExtensionCost(wEdges, tEdges, band, ts, ws, i, j).Inf?
    decreases |ts| - m
  {
    if m < |ts| {
      assert ts[..m + 1][..m] == ts[..m] && ws[..m + 1][..m] == ws[..m];
      CostInfSticks(wEdges, tEdges, band, ts, ws, m + 1, i, j);
    } else {
      assert ts[..m] == ts && ws[..m] == ws;
    }
  }
}
