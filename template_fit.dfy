/**
 * The whole of MarkerTracking::fit3DPointsToObjectTemplate
 * (src/markerTracking/MarkerTracking.cpp): edge matrices, seeds, the search,
 * the choice of how many pairs to keep, and the rigid fit of the chosen pairs.
 */
module TemplateFit {
  import opened Extended
  import opened EdgeMatches
  import opened TemplateEdges
  import opened Assignment
  import opened TemplateSearch

  /** min_correspondences: a pose needs at least four pairs. */
  const MinCorrespondences: nat := 4

  /** The bonus for every additional pair (1.65f). */
  const PairFactor: real := 1.65

  function Pow(x: real, e: nat): real {
    if e == 0 then 1.0 else Pow(x, e - 1) * x
  }

  /** num_edges after step i: 1 + 2 + ... + i, the number of edges among i + 1 points. */
  function NumEdges(i: nat): (r: nat)
    ensures i > 0 ==> r >= i
  {
    if i == 0 then 0 else NumEdges(i - 1) + i
  }

  lemma {:induction false} NumEdgesClosedForm(i: nat)
    ensures 2 * NumEdges(i) == i * (i + 1)
  {
    if i > 0 {
      NumEdgesClosedForm(i - 1);
    }
  }

  /**
   * The average per edge of a residual r over count pairs, scaled by 1.65 for
   * every pair fewer than the numTemp template points.
   */
  function Averaged(numTemp: nat, count: nat, r: real): real
    requires 2 <= count <= numTemp
  {
    Pow(PairFactor, numTemp - count) * (r / NumEdges(count - 1) as real)
  }

  /**
   * avg_edge_residuum[i]: the residual of the best i + 1 pairs per edge,
   * scaled by 1.65 for every pair it has fewer than the template; infinite
   * for i = 0 and for every infinite residual.
   */
  function AvgEdgeResiduum(bestRes: seq<ExtReal>, i: nat): ExtReal
    requires i < |bestRes|
  {
    if i == 0 then Inf
    else match bestRes[i]
      case Inf => Inf
      case Fin(v) => Fin(Averaged(|bestRes|, i + 1, v))
  }

  lemma {:induction false} PowPositive(x: real, e: nat)
    requires x > 0.0
    ensures Pow(x, e) > 0.0
  {
    if e > 0 {
      PowPositive(x, e - 1);
    }
  }

  /**
   * When two neighbouring residuals are finite with the same positive
   * residual per edge, the one with more pairs has the smaller average: the
   * factor favours more points when the fits are alike.
   */
  lemma MorePairsPreferred(bestRes: seq<ExtReal>, i: nat)
    requires 1 <= i && i + 1 < |bestRes| && bestRes[i].Fin? && bestRes[i + 1].Fin?
    requires bestRes[i].v / NumEdges(i) as real == bestRes[i + 1].v / NumEdges(i + 1) as real > 0.0
    ensures AvgEdgeResiduum(bestRes, i + 1).v < AvgEdgeResiduum(bestRes, i).v
  {
    var e := |bestRes| - 1 - (i + 1);
    var perEdge := bestRes[i].v / NumEdges(i) as real;
    PowPositive(PairFactor, e);
    assert |bestRes| - 1 - i == e + 1;
    assert Pow(PairFactor, e + 1) == Pow(PairFactor, e) * PairFactor;
    assert Pow(PairFactor, e) * perEdge < Pow(PairFactor, e) * PairFactor * perEdge;
  }

  /** The loop that fills avg_edge_residuum, with its inner loop for the factor. */
  method Averages(bestRes: seq<ExtReal>) returns (avg: seq<ExtReal>)
    requires |bestRes| >= 1
    ensures |avg| == |bestRes|
    ensures forall i :: 0 <= i < |avg| ==> avg[i] == AvgEdgeResiduum(bestRes, i)
  {
    var numTemp := |bestRes|;
    avg := seq(numTemp, _ => Fin(0.0));
    avg := avg[0 := Inf];
    var numEdges := 0;
    var i := 1;
    while i < numTemp
      invariant 1 <= i <= numTemp && |avg| == numTemp
      invariant numEdges == NumEdges(i - 1)
      invariant forall k :: 0 <= k < i ==> avg[k] == AvgEdgeResiduum(bestRes, k)
    {
      numEdges := numEdges + i;
      var perEdge := if bestRes[i].Inf? then Inf else Fin(bestRes[i].v / numEdges as real);
      var factor := 1.0;
      var j := i + 1;
      while j < numTemp
        invariant i + 1 <= j <= numTemp
        invariant factor == Pow(PairFactor, j - i - 1)
      {
        factor := factor * PairFactor;
        j := j + 1;
      }
      avg := avg[i := if perEdge.Inf? then Inf else Fin(factor * perEdge.v)];
      i := i + 1;
    }
  }

  /**
   * The choice of best_num_corres: starting from four, every later number of
   * pairs whose average is no larger takes over, so the result is the last
   * among those with the smallest average.
   */
  method SelectCount(avg: seq<ExtReal>) returns (count: nat)
    requires |avg| >= MinCorrespondences
    ensures MinCorrespondences <= count <= |avg|
    ensures forall i :: MinCorrespondences - 1 <= i < |avg| ==> Le(avg[count - 1], avg[i])
    ensures forall i :: count <= i < |avg| ==> Gt(avg[i], avg[count - 1])
  {
    count := MinCorrespondences;
    var i := MinCorrespondences;
    while i < |avg|
      invariant MinCorrespondences <= i <= |avg| && MinCorrespondences <= count <= i
      invariant forall k :: MinCorrespondences - 1 <= k < i ==> Le(avg[count - 1], avg[k])
      invariant forall k :: count <= k < i ==> Gt(avg[k], avg[count - 1])
    {
      if Le(avg[i], avg[count - 1]) {
        forall k | MinCorrespondences - 1 <= k < i
          ensures Le(avg[i], avg[k])
        {
          LeTransitive(avg[i], avg[count - 1], avg[k]);
        }
        count := i + 1;
      }
      LeTotal(avg[i], avg[count - 1]);
      i := i + 1;
    }
  }

  /**
   * count is best_num_corres for the residuals: its average is no larger than
   * that of any number of pairs from four on, and every larger number of
   * pairs has a strictly larger average.
   */
  predicate ChosenCount(bestRes: seq<ExtReal>, count: nat) {
    MinCorrespondences <= count <= |bestRes|
    && (forall i :: MinCorrespondences - 1 <= i < |bestRes| ==>
          Le(AvgEdgeResiduum(bestRes, count - 1), AvgEdgeResiduum(bestRes, i)))
    && (forall i :: count <= i < |bestRes| ==>
          Gt(AvgEdgeResiduum(bestRes, i), AvgEdgeResiduum(bestRes, count - 1)))
  }

  /** The residuals fix the number of pairs kept: at most one count is chosen. */
  lemma ChosenCountUnique(bestRes: seq<ExtReal>, count: nat, count': nat)
    requires ChosenCount(bestRes, count) && ChosenCount(bestRes, count')
    ensures count == count'
  {
    assert Le(AvgEdgeResiduum(bestRes, count - 1), AvgEdgeResiduum(bestRes, count' - 1));
    assert Le(AvgEdgeResiduum(bestRes, count' - 1), AvgEdgeResiduum(bestRes, count - 1));
  }

  // ---------------------------------------------------------------------------
  // The residual in terms of the points

  function PointsAt<P>(points: seq<P>, idx: seq<int>): (r: seq<P>)
    requires forall p :: 0 <= p < |idx| ==> 0 <= idx[p] < |points|
    ensures |r| == |idx| && forall p :: 0 <= p < |idx| ==> r[p] == points[idx[p]]
  {
    seq(|idx|, p requires 0 <= p < |idx| => points[idx[p]])
  }

  /** The terms that adding the pair (t, w) to the pairs of points (tp, wp) brings in. */
  function PointNewTerms<P>(tp: seq<P>, wp: seq<P>, t: P, w: P, dist: (P, P) -> real): real
    requires |tp| == |wp|
  {
    if tp == [] then 0.0
    else
      var n := |tp| - 1;
      PointNewTerms(tp[..n], wp[..n], t, w, dist) + Sq(dist(wp[n], w) - dist(tp[n], t))
  }

  /** The sum over every two pairs of the squared difference of their world and template distances. */
  function PointResidual<P>(tp: seq<P>, wp: seq<P>, dist: (P, P) -> real): real
    requires |tp| == |wp|
  {
    if tp == [] then 0.0
    else
      var n := |tp| - 1;
      PointResidual(tp[..n], wp[..n], dist) + PointNewTerms(tp[..n], wp[..n], tp[n], wp[n], dist)
  }

  /** The edge matrices the search reads hold the distances of the points. */
  predicate EdgesOf<P>(template: seq<P>, world: seq<P>, dist: (P, P) -> real, tEdges: Matrix, wEdges: Matrix) {
    IsSquare(tEdges, |template|)
    && (forall a, b :: 0 <= a < |template| && 0 <= b < |template| ==> tEdges[a][b] == dist(template[a], template[b]))
    && IsWorldEdgeMatrix(wEdges, world, dist)
  }

  predicate InRange(idx: seq<int>, n: nat) {
    forall p :: 0 <= p < |idx| ==> 0 <= idx[p] < n
  }

  /** The new terms agree with the point terms when every edge they read does. */
  lemma {:induction false} NewTermsByTerms<P>(wEdges: Matrix, tEdges: Matrix, ts: seq<int>, ws: seq<int>, t: int, w: int,
                                              tp: seq<P>, wp: seq<P>, tt: P, ww: P, dist: (P, P) -> real)
    requires |ts| == |ws| == |tp| == |wp|
    requires forall p :: 0 <= p < |ts| ==>
               WorldEdge(wEdges, ws[p], w) == dist(wp[p], ww) && At(tEdges, ts[p], t) == dist(tp[p], tt)
    ensures NewTerms(wEdges, tEdges, ts, ws, t, w) == PointNewTerms(tp, wp, tt, ww, dist)
  {
    if ts != [] {
      var n := |ts| - 1;
      NewTermsByTerms(wEdges, tEdges, ts[..n], ws[..n], t, w, tp[..n], wp[..n], tt, ww, dist);
    }
  }

  lemma NewTermsOfPoints<P(!new)>(template: seq<P>, world: seq<P>, dist: (P, P) -> real, tEdges: Matrix, wEdges: Matrix,
                                  ts: seq<int>, ws: seq<int>, t: int, w: int)
    requires IsDistance(dist) && EdgesOf(template, world, dist, tEdges, wEdges)
    requires |ts| == |ws| && InRange(ts, |template|) && InRange(ws, |world|)
    requires 0 <= t < |template| && 0 <= w < |world| && w !in ws
    ensures NewTerms(wEdges, tEdges, ts, ws, t, w)
         == PointNewTerms(PointsAt(template, ts), PointsAt(world, ws), template[t], world[w], dist)
  {
    var tp, wp := PointsAt(template, ts), PointsAt(world, ws);
    forall p | 0 <= p < |ts|
      ensures WorldEdge(wEdges, ws[p], w) == dist(wp[p], world[w]) && At(tEdges, ts[p], t) == dist(tp[p], template[t])
    {
      assert ws[p] in ws;
      assert tp[p] == template[ts[p]] && wp[p] == world[ws[p]];
      EdgesOfPoints(template, world, dist, tEdges, wEdges, ts[p], ws[p], t, w);
    }
    NewTermsByTerms(wEdges, tEdges, ts, ws, t, w, tp, wp, template[t], world[w], dist);
  }

  /** The two edges one term reads from the edge matrices are the distances of the points. */
  lemma EdgesOfPoints<P(!new)>(template: seq<P>, world: seq<P>, dist: (P, P) -> real, tEdges: Matrix, wEdges: Matrix,
                                  tp: int, wp: int, t: int, w: int)
    requires IsDistance(dist) && EdgesOf(template, world, dist, tEdges, wEdges)
    requires 0 <= tp < |template| && 0 <= wp < |world| && 0 <= t < |template| && 0 <= w < |world| && wp != w
    ensures WorldEdge(wEdges, wp, w) == dist(world[wp], world[w])
    ensures At(tEdges, tp, t) == dist(template[tp], template[t])
  {
    if wp > w {
      assert wEdges[w][wp] == UpperEdge(world, dist, w, wp);
      assert dist(world[w], world[wp]) == dist(world[wp], world[w]);
    } else {
      assert wEdges[wp][w] == UpperEdge(world, dist, wp, w);
    }
  }

  /** The residual the search computes is the residual of the paired points. */
  lemma {:induction false} ResidualOfPoints<P(!new)>(template: seq<P>, world: seq<P>, dist: (P, P) -> real, tEdges: Matrix, wEdges: Matrix,
                                                     ts: seq<int>, ws: seq<int>)
    requires IsDistance(dist) && EdgesOf(template, world, dist, tEdges, wEdges)
    requires |ts| == |ws| && InRange(ts, |template|) && InRange(ws, |world|)
    requires forall p, q :: 0 <= p < q < |ws| ==> ws[p] != ws[q]
    ensures Residual(wEdges, tEdges, ts, ws) == PointResidual(PointsAt(template, ts), PointsAt(world, ws), dist)
  {
    if ts != [] {
      var n := |ts| - 1;
      ResidualOfPoints(template, world, dist, tEdges, wEdges, ts[..n], ws[..n]);
      assert ws[n] !in ws[..n] by {
        forall p | 0 <= p < n
          ensures ws[..n][p] != ws[n]
        {
        }
      }
      NewTermsOfPoints(template, world, dist, tEdges, wEdges, ts[..n], ws[..n], ts[n], ws[n]);
      assert PointsAt(template, ts)[..n] == PointsAt(template, ts[..n]);
      assert PointsAt(world, ws)[..n] == PointsAt(world, ws[..n]);
    }
  }

  // ---------------------------------------------------------------------------
  // The whole fit

  datatype Outcome =
    | NotConfigured
    | TooFewCorrespondences
    | Fitted(count: nat, templateIdx: seq<int>, worldIdx: seq<int>)

  /** No two entries of the sequence are equal. */
  predicate Distinct(idx: seq<int>) {
    forall p, q :: 0 <= p < q < |idx| ==> idx[p] != idx[q]
  }

  /** The kept pairs: between four and all template points, distinct on both sides. */
  predicate FittedPairs(count: nat, ts: seq<int>, ws: seq<int>, numTemp: nat, numP: nat) {
    MinCorrespondences <= count <= numTemp && |ts| == count && |ws| == count
    && InRange(ts, numTemp) && InRange(ws, numP) && Distinct(ts) && Distinct(ws)
  }

  /** The loop that copies the chosen points into my_template / my_points. */
  method Gather<P>(points: seq<P>, idx: seq<int>) returns (chosen: seq<P>)
    requires InRange(idx, |points|)
    ensures chosen == PointsAt(points, idx)
  {
    chosen := [];
    var i := 0;
    while i < |idx|
      invariant 0 <= i <= |idx| && chosen == PointsAt(points, idx[..i])
    {
      assert PointsAt(points, idx[..i + 1]) == chosen + [points[idx[i]]];
      chosen := chosen + [points[idx[i]]];
      i := i + 1;
    }
    assert idx[..|idx|] == idx;
  }

  /**
   * The inputs of the search as the code prepares them (:541-662): the edge
   * matrices of the points, eMax and eMin the extreme template edges, the
   * band between them, seeds every match pushed, in the order of the loops,
   * and order what the seed loop takes from the queue: the number it pops,
   * all of them pushed, by non-decreasing dist, none larger than a seed left.
   */
  ghost predicate Prepared<P>(template: seq<P>, world: seq<P>, dist: (P, P) -> real, tEdges: Matrix, wEdges: Matrix,
                              band: Band, eMax: real, eMin: ExtReal, seeds: seq<EdgeMatch>, order: seq<EdgeMatch>) {
    EdgesOf(template, world, dist, tEdges, wEdges) && Symmetric(tEdges)
    && IsMaxEdge(tEdges, |template|, eMax) && IsMinEdge(tEdges, |template|, eMin)
    && eMin.Fin? && band == AcceptanceBand(eMax, eMin.v)
    && (forall m :: m in seeds <==> IsSeed(m, world, dist, tEdges, |template|, band))
    && InLoopOrder(seeds)
    && |order| == Min(NumTestEdges(|template|), (|seeds| + 1) / 2)
    && multiset(order) <= multiset(seeds)
    && (forall i, j :: 0 <= i < j < |order| ==> order[i].dist <= order[j].dist)
    && (forall m: EdgeMatch, r: EdgeMatch :: m in order && r in multiset(seeds) - multiset(order) ==> m.dist <= r.dist)
  }

  /** The part before the search: both edge matrices, the band and the seeds in queue order. */
  method SearchInputs<P(!new)>(template: seq<P>, world: seq<P>, dist: (P, P) -> real)
    returns (tEdges: Matrix, wEdges: Matrix, band: Band, order: seq<EdgeMatch>,
             ghost eMax: real, ghost eMin: ExtReal, ghost seeds: seq<EdgeMatch>)
    requires |template| >= 2 && IsDistance(dist)
    ensures Prepared(template, world, dist, tEdges, wEdges, band, eMax, eMin, seeds, order)
    ensures forall e :: 0 <= e < |order| ==> ValidSeed(order[e], wEdges, |template|, |world|, band)
  {
    var max, min;
    tEdges, max, min := TemplateEdgeMatrix(template, dist);
    TemplateEdgesSymmetric(template, dist, tEdges);
    SymmetricFromEntries(tEdges, |template|);
    band := AcceptanceBand(max, min.v);
    var pushed;
    wEdges, pushed := WorldEdgesAndSeeds(world, dist, tEdges, |template|, band);
    assert |template| * (|template| - 1) >= 0;
    order := SeedOrder(pushed, NumTestEdges(|template|));
    eMax, eMin, seeds := max, min, pushed;
    forall e | 0 <= e < |order|
      ensures ValidSeed(order[e], wEdges, |template|, |world|, band)
    {
      assert order[e] in multiset(order);
      assert order[e] in pushed;
      SeedIsValid(order[e], world, dist, tEdges, |template|, band, wEdges);
    }
  }

  /** A number of pairs whose average is no worse than that of four pairs has a finite residual, averaged as shown. */
  lemma ChosenAverage(bestRes: seq<ExtReal>, avgs: seq<ExtReal>, count: nat)
    requires |bestRes| >= MinCorrespondences && bestRes[MinCorrespondences - 1].Fin?
    requires |avgs| == |bestRes| && forall i :: 0 <= i < |avgs| ==> avgs[i] == AvgEdgeResiduum(bestRes, i)
    requires MinCorrespondences <= count <= |avgs| && Le(avgs[count - 1], avgs[MinCorrespondences - 1])
    ensures bestRes[count - 1].Fin?
    ensures avgs[count - 1] == Fin(Averaged(|bestRes|, count, bestRes[count - 1].v))
  {
    assert avgs[MinCorrespondences - 1] == AvgEdgeResiduum(bestRes, MinCorrespondences - 1);
    assert avgs[count - 1] == AvgEdgeResiduum(bestRes, count - 1);
  }

  /** The chosen number of pairs has a finite residual, so its column backs it. */
  lemma ChosenIsBacked(tables: seq<Column>, bestRes: seq<ExtReal>, count: nat,
                       numTemp: nat, numP: nat, wEdges: Matrix, tEdges: Matrix, band: Band)
    requires TablesOk(tables, bestRes, numTemp, numP, wEdges, tEdges, band)
    requires MinCorrespondences <= count <= numTemp && bestRes[count - 1].Fin?
    ensures Backs(tables[count - 1], count, bestRes[count - 1].v, numTemp, numP, wEdges, tEdges, band)
  {
    assert EntryBacked(tables[count - 1], bestRes[count - 1], count - 1, numTemp, numP, wEdges, tEdges, band);
  }

  /** The pairs of a backed column are distinct pairs of points. */
  lemma BackedPairs(col: Column, count: nat, r: real, numTemp: nat, numP: nat, wEdges: Matrix, tEdges: Matrix, band: Band)
    requires Backs(col, count, r, numTemp, numP, wEdges, tEdges, band) && MinCorrespondences <= count
    ensures FittedPairs(count, col.templateIdx[..count], col.worldIdx[..count], numTemp, numP)
  {
    assert forall p :: 0 <= p < count ==> col.templateIdx[..count][p] == col.templateIdx[p];
    assert forall p :: 0 <= p < count ==> col.worldIdx[..count][p] == col.worldIdx[p];
  }

  /** The residual a backed column holds is the residual of its points, and within residuum_max. */
  lemma BackedResidual<P(!new)>(template: seq<P>, world: seq<P>, dist: (P, P) -> real, tEdges: Matrix, wEdges: Matrix,
                                band: Band, col: Column, count: nat, r: real)
    requires IsDistance(dist) && EdgesOf(template, world, dist, tEdges, wEdges)
    requires Backs(col, count, r, |template|, |world|, wEdges, tEdges, band)
    ensures r == PointResidual(PointsAt(template, col.templateIdx[..count]), PointsAt(world, col.worldIdx[..count]), dist)
    ensures count >= 1 && r <= ResiduumMax(count - 1)
  {
    assert forall p :: 0 <= p < count ==>
             col.templateIdx[..count][p] == col.templateIdx[p] && col.worldIdx[..count][p] == col.worldIdx[p];
    ResidualOfPoints(template, world, dist, tEdges, wEdges, col.templateIdx[..count], col.worldIdx[..count]);
  }

  /** What the fit reports for a set of pairs: the pairs, the pose of the rigid fit, and the averaged residual. */
  ghost predicate FitReport<P, R>(template: seq<P>, world: seq<P>, dist: (P, P) -> real, fitTwoPointSets: (seq<P>, seq<P>) -> R,
                            count: nat, ts: seq<int>, ws: seq<int>, rt: R, avg: ExtReal) {
    FittedPairs(count, ts, ws, |template|, |world|)
    && rt == fitTwoPointSets(PointsAt(template, ts), PointsAt(world, ws))
    && PointResidual(PointsAt(template, ts), PointsAt(world, ws), dist) <= ResiduumMax(count - 1)
    && avg == Fin(Averaged(|template|, count, PointResidual(PointsAt(template, ts), PointsAt(world, ws), dist)))
  }

  /**
   * The choice the residuals make: count is best_num_corres, the pairs are
   * the first count of column count - 1, and the deviation is its average.
   */
  predicate Chosen(tables: seq<Column>, bestRes: seq<ExtReal>, count: nat, ts: seq<int>, ws: seq<int>, avg: ExtReal) {
    ChosenCount(bestRes, count) && count <= |tables|
    && count <= |tables[count - 1].templateIdx| && count <= |tables[count - 1].worldIdx|
    && ts == tables[count - 1].templateIdx[..count] && ws == tables[count - 1].worldIdx[..count]
    && avg == AvgEdgeResiduum(bestRes, count - 1)
  }

  /**
   * What the search leaves behind: its inputs as prepared, valid seeds in
   * queue order, consistent tables, and entry 2 the best admissible triangle
   * over the seeds in that order.
   */
  ghost predicate Searched<P>(template: seq<P>, world: seq<P>, dist: (P, P) -> real, eMax: real, eMin: ExtReal,
                              seeds: seq<EdgeMatch>, order: seq<EdgeMatch>,
                              tables: seq<Column>, bestRes: seq<ExtReal>, wEdges: Matrix, tEdges: Matrix, band: Band) {
    Prepared(template, world, dist, tEdges, wEdges, band, eMax, eMin, seeds, order)
    && (forall e :: 0 <= e < |order| ==> ValidSeed(order[e], wEdges, |template|, |world|, band))
    && TablesOk(tables, bestRes, |template|, |world|, wEdges, tEdges, band)
    && Best(bestRes[2], tables[2])
       == BestTriangle(SearchTriangles(order, |world|, |template|), Best(Inf, EmptyColumn(|template|, |world|)),
                       |template|, |world|, wEdges, tEdges, band)
    && LeastLastTriangle(SearchTriangles(order, |world|, |template|), Best(bestRes[2], tables[2]),
                         |template|, |world|, wEdges, tEdges, band)
  }

  /** The part after the search (:846-889): choose the number of pairs, gather their points and fit them. */
  method ChooseAndFit<P(!new), R>(template: seq<P>, world: seq<P>, dist: (P, P) -> real, fitTwoPointSets: (seq<P>, seq<P>) -> R,
                                  tables: seq<Column>, bestRes: seq<ExtReal>, wEdges: Matrix, tEdges: Matrix, band: Band)
    returns (rt: R, avg: ExtReal, count: nat, ts: seq<int>, ws: seq<int>)
    requires IsDistance(dist) && EdgesOf(template, world, dist, tEdges, wEdges)
    requires TablesOk(tables, bestRes, |template|, |world|, wEdges, tEdges, band)
    requires |template| >= MinCorrespondences && bestRes[MinCorrespondences - 1].Fin?
    ensures FitReport(template, world, dist, fitTwoPointSets, count, ts, ws, rt, avg)
    ensures Chosen(tables, bestRes, count, ts, ws, avg)
  {
    var avgs := Averages(bestRes);
    count := SelectCount(avgs);
    assert ChosenCount(bestRes, count) by {
      assert forall i :: 0 <= i < |avgs| ==> avgs[i] == AvgEdgeResiduum(bestRes, i);
    }
    ChosenAverage(bestRes, avgs, count);
    ChosenIsBacked(tables, bestRes, count, |template|, |world|, wEdges, tEdges, band);
    var col := tables[count - 1];
    ts, ws := col.templateIdx[..count], col.worldIdx[..count];
    BackedPairs(col, count, bestRes[count - 1].v, |template|, |world|, wEdges, tEdges, band);
    BackedResidual(template, world, dist, tEdges, wEdges, band, col, count, bestRes[count - 1].v);
    var chosenTemplate := Gather(template, ts);
    var chosenWorld := Gather(world, ws);
    rt := fitTwoPointSets(chosenTemplate, chosenWorld);
    avg := avgs[count - 1];
  }

  /**
   * fit3DPointsToObjectTemplate: without configuration nothing changes;
   * without a four-pair assignment the pose is the zero matrix and the
   * deviation infinite; otherwise the chosen pairs are handed to the rigid
   * fit and the deviation is their averaged residual per edge.
   */
  method FitTemplate<P(!new), R>(configured: bool, template: seq<P>, world: seq<P>, dist: (P, P) -> real,
                                 fitTwoPointSets: (seq<P>, seq<P>) -> R, zeroRT: R, rtIn: R, avgIn: ExtReal)
    returns (rt: R, avg: ExtReal, outcome: Outcome,
             ghost eMax: real, ghost eMin: ExtReal, ghost seeds: seq<EdgeMatch>,
             ghost order: seq<EdgeMatch>, ghost tables: seq<Column>, ghost bestRes: seq<ExtReal>,
             ghost wEdges: Matrix, ghost tEdges: Matrix, ghost band: Band)
    requires configured ==> |template| >= MinCorrespondences
    requires IsDistance(dist)
    ensures !configured <==> outcome.NotConfigured?
    ensures !configured ==> rt == rtIn && avg == avgIn
    ensures outcome.TooFewCorrespondences? ==> rt == zeroRT && avg == Inf
    ensures configured && |world| < MinCorrespondences ==> outcome.TooFewCorrespondences?
    ensures outcome.Fitted? ==> FitReport(template, world, dist, fitTwoPointSets, outcome.count,
                                          outcome.templateIdx, outcome.worldIdx, rt, avg)
    ensures configured ==> Searched(template, world, dist, eMax, eMin, seeds, order, tables, bestRes, wEdges, tEdges, band)
    // A pose is fitted exactly when the search found four pairs, with the count and pairs the residuals choose.
    ensures configured ==> (outcome.Fitted? <==> bestRes[MinCorrespondences - 1].Fin?)
    ensures outcome.Fitted? ==> Chosen(tables, bestRes, outcome.count, outcome.templateIdx, outcome.worldIdx, avg)
  {
    if !configured {
      return rtIn, avgIn, NotConfigured, 0.0, Inf, [], [], [], [], [], [], Band(0.0, 0.0);
    }
    var numTemp, numP := |template|, |world|;
    var tEdges', wEdges', band', order';
    tEdges', wEdges', band', order', eMax, eMin, seeds := SearchInputs(template, world, dist);
    var tables', bestRes' := SearchAll(order', numTemp, numP, wEdges', tEdges', band');
    order, tables, bestRes, wEdges, tEdges, band := order', tables', bestRes', wEdges', tEdges', band';
    FoundNeedsPoints(tables', bestRes', numTemp, numP, wEdges', tEdges', band', MinCorrespondences - 1);
    if bestRes'[MinCorrespondences - 1] == Inf {
      return zeroRT, Inf, TooFewCorrespondences, eMax, eMin, seeds, order, tables, bestRes, wEdges, tEdges, band;
    }
    var count, ts, ws;
    rt, avg, count, ts, ws := ChooseAndFit(template, world, dist, fitTwoPointSets, tables', bestRes', wEdges', tEdges', band');
    outcome := Fitted(count, ts, ws);
  }
}
