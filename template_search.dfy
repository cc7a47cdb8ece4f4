/**
 * The search loops of MarkerTracking::fit3DPointsToObjectTemplate
 * (src/markerTracking/MarkerTracking.cpp): every seed edge match is grown
 * into a triangle by a third pair, and every accepted triangle is extended
 * one pair at a time by the cheapest unpaired template and world point,
 * while the tables keep the best assignment found for each number of pairs.
 */
module TemplateSearch {
  import opened Extended
  import opened EdgeMatches
  import opened TemplateEdges
  import opened Assignment

  /**
   * residuum_max[k]: the largest residual accepted for k + 1 pairs, (k + 1)
   * times max_distance (written with the literal so that the bound stays
   * linear arithmetic).
   */
  function ResiduumMax(k: nat): (r: real)
    ensures r == (k + 1) as real * MaxDistance
  {
    (k + 1) as real * 20.0
  }

  /** A seed the search can start from: an accepted world edge a < b matched with a template edge x < y. */
  predicate ValidSeed(m: EdgeMatch, wEdges: Matrix, numTemp: nat, numP: nat, band: Band) {
    0 <= m.a < m.b < numP && 0 <= m.x < m.y < numTemp && InBand(WorldEdge(wEdges, m.a, m.b), band)
  }

  /** Every seed pushed into the queue is one the search can start from. */
  lemma SeedIsValid<P>(m: EdgeMatch, world: seq<P>, dist: (P, P) -> real, tEdges: Matrix, numTemp: nat, band: Band, wEdges: Matrix)
    requires IsSquare(tEdges, numTemp) && IsWorldEdgeMatrix(wEdges, world, dist)
    requires IsSeed(m, world, dist, tEdges, numTemp, band)
    ensures ValidSeed(m, wEdges, numTemp, |world|, band)
  {
    assert wEdges[m.a][m.b] == UpperEdge(world, dist, m.a, m.b);
  }

  /** Every world edge between two paired points lies in the band. */
  predicate PairsInBand(col: Column, n: nat, wEdges: Matrix, band: Band)
    requires n <= |col.worldIdx|
  {
    forall p, q :: 0 <= p < q < n ==> InBand(WorldEdge(wEdges, col.worldIdx[p], col.worldIdx[q]), band)
  }

  /** Column col with n pairs backs the residual r: a valid pairing, edges in the band, r its residual and within residuum_max. */
  predicate Backs(col: Column, n: nat, r: real, numTemp: nat, numP: nat, wEdges: Matrix, tEdges: Matrix, band: Band) {
    ValidColumn(col, n, numTemp, numP)
    && PairsInBand(col, n, wEdges, band)
    && r == Residual(wEdges, tEdges, col.templateIdx[..n], col.worldIdx[..n])
    && n >= 1 && r <= ResiduumMax(n - 1)
  }

  /** Entry k of the tables, residual r and column col, when finite, is backed by col with k + 1 pairs. */
  predicate EntryBacked(col: Column, r: ExtReal, k: nat, numTemp: nat, numP: nat,
                        wEdges: Matrix, tEdges: Matrix, band: Band)
  {
    r.Fin? ==> Backs(col, k + 1, r.v, numTemp, numP, wEdges, tEdges, band)
  }

  /**
   * The invariant of the search: best_residuum[0] and [1] are never written,
   * every finite best_residuum[k] is backed by column k with k + 1 pairs, and
   * the finite entries from index 2 on form an unbroken run, since a column
   * for more pairs is only ever written by extending the one before it.
   */
  predicate TablesOk(tables: seq<Column>, bestRes: seq<ExtReal>, numTemp: nat, numP: nat,
                     wEdges: Matrix, tEdges: Matrix, band: Band) {
    |tables| == numTemp && |bestRes| == numTemp && numTemp >= 3
    && bestRes[0] == Inf && bestRes[1] == Inf
    && (forall k {:trigger EntryBacked(tables[k], bestRes[k], k, numTemp, numP, wEdges, tEdges, band)} ::
          2 <= k < numTemp ==> EntryBacked(tables[k], bestRes[k], k, numTemp, numP, wEdges, tEdges, band))
    && FiniteRun(bestRes)
  }

  /** The finite entries of best_residuum from index 2 on form an unbroken run. */
  predicate FiniteRun(bestRes: seq<ExtReal>) {
    forall k, l :: 2 <= k <= l < |bestRes| && bestRes[l].Fin? ==> bestRes[k].Fin?
  }

  /** A finite entry stored right after another finite one (or at index 2) keeps the run unbroken. */
  lemma StoreKeepsRun(bestRes: seq<ExtReal>, k: nat, r: ExtReal)
    requires FiniteRun(bestRes) && 2 <= k < |bestRes| && (k >= 3 ==> bestRes[k - 1].Fin?) && r.Fin?
    ensures FiniteRun(bestRes[k := r])
  {
    var bestRes' := bestRes[k := r];
    forall k1, l | 2 <= k1 <= l < |bestRes| && bestRes'[l].Fin?
      ensures bestRes'[k1].Fin?
    {
      if k1 != k && l == k && k1 < k {
        assert bestRes[k - 1].Fin?;
      }
    }
  }

  /** No entry of best_residuum got larger. */
  predicate NoWorse(now: seq<ExtReal>, before: seq<ExtReal>) {
    |now| == |before| && forall k :: 0 <= k < |now| ==> Le(now[k], before[k])
  }

  lemma NoWorseTransitive(a: seq<ExtReal>, b: seq<ExtReal>, c: seq<ExtReal>)
    requires NoWorse(a, b) && NoWorse(b, c)
    ensures NoWorse(a, c)
  {
    forall k | 0 <= k < |a|
      ensures Le(a[k], c[k])
    {
      LeTransitive(a[k], b[k], c[k]);
    }
  }

  /** The tables as they are initialised: every entry -1, every residual infinite. */
  function InitialTables(numTemp: nat, numP: nat): seq<Column> {
    seq(numTemp, _ => EmptyColumn(numTemp, numP))
  }

  function InitialResiduals(numTemp: nat): (r: seq<ExtReal>)
    ensures |r| == numTemp && forall k :: 0 <= k < numTemp ==> r[k] == Inf
  {
    seq(numTemp, _ => Inf)
  }

  lemma InitialTablesOk(numTemp: nat, numP: nat, wEdges: Matrix, tEdges: Matrix, band: Band)
    requires numTemp >= 3
    ensures TablesOk(InitialTables(numTemp, numP), InitialResiduals(numTemp), numTemp, numP, wEdges, tEdges, band)
  {
  }

  // ---------------------------------------------------------------------------
  // One candidate pair (:760-793)

  /** The cost of pairing template point i with world point j, given the first n pairs of col. */
  function CandidateCost(wEdges: Matrix, tEdges: Matrix, band: Band, col: Column, n: nat, i: int, j: int): ExtReal
    requires n <= |col.templateIdx| && n <= |col.worldIdx|
  {
    ExtensionCost(wEdges, tEdges, band, col.templateIdx[..n], col.worldIdx[..n], i, j)
  }

  /** The loop over the paired points that sums new_residuum, with its two breaks. */
  method Cost(wEdges: Matrix, tEdges: Matrix, band: Band, col: Column, n: nat, i: int, j: int) returns (cost: ExtReal)
    requires n <= |col.templateIdx| && n <= |col.worldIdx|
    ensures cost == CandidateCost(wEdges, tEdges, band, col, n, i, j)
  {
    ghost var ts, ws := col.templateIdx[..n], col.worldIdx[..n];
    cost := Fin(0.0);
    var k := 0;
    while k < n
      invariant 0 <= k <= n
      invariant cost.Fin? && cost == ExtensionCost(wEdges, tEdges, band, ts[..k], ws[..k], i, j)
    {
      assert ts[..k + 1][..k] == ts[..k] && ws[..k + 1][..k] == ws[..k];
      var w := WorldEdge(wEdges, col.worldIdx[k], j);
      if w > band.hi || w < band.lo {
        CostInfSticks(wEdges, tEdges, band, ts, ws, k + 1, i, j);
        cost := Inf;
        return;
      }
      var d := Abs(w - At(tEdges, i, col.templateIdx[k]));
      if d > MaxDistance {
        CostInfSticks(wEdges, tEdges, band, ts, ws, k + 1, i, j);
        cost := Inf;
        return;
      }
      cost := Fin(cost.v + Sq(d));
      k := k + 1;
    }
    assert ts[..n] == ts && ws[..n] == ws;
  }

  // ---------------------------------------------------------------------------
  // The cheapest extension (:748-798)

  /** Template point i and world point j are both still unpaired in col. */
  predicate Unpaired(col: Column, i: int, j: int) {
    0 <= i < |col.templateToWorld| && 0 <= j < |col.worldToTemplate|
    && col.templateToWorld[i] < 0 && col.worldToTemplate[j] < 0
  }

  /** (i, j) comes before (i', j') in the order of the two loops. */
  predicate PairBefore(i: int, j: int, i': int, j': int) {
    i < i' || (i == i' && j < j')
  }

  /**
   * The loops over the unpaired template points i and world points j: the
   * result is the smallest cost of all unpaired pairs and, when finite, the
   * cost of the last pair that reaches it (`new_residuum > best` skips, so a
   * tie replaces the earlier pair).
   */
  method BestExtension(wEdges: Matrix, tEdges: Matrix, band: Band, col: Column, n: nat)
    returns (best: ExtReal, bi: int, bj: int)
    requires n <= |col.templateIdx| && n <= |col.worldIdx|
    ensures forall i, j :: Unpaired(col, i, j) ==> Le(best, CandidateCost(wEdges, tEdges, band, col, n, i, j))
    ensures best.Fin? ==> Unpaired(col, bi, bj) && best == CandidateCost(wEdges, tEdges, band, col, n, bi, bj)
    ensures best.Fin? ==> forall i, j :: Unpaired(col, i, j) && PairBefore(bi, bj, i, j)
                            ==> Gt(CandidateCost(wEdges, tEdges, band, col, n, i, j), best)
    ensures IsBestExtension(wEdges, tEdges, band, col, n, best, bi, bj)
  {
    var numTemp, numP := |col.templateToWorld|, |col.worldToTemplate|;
    best, bi, bj := Inf, -1, -1;
    var i := 0;
    while i < numTemp
      invariant 0 <= i <= numTemp
      invariant forall i', j' :: Unpaired(col, i', j') && i' < i ==> Le(best, CandidateCost(wEdges, tEdges, band, col, n, i', j'))
      invariant best.Fin? ==> Unpaired(col, bi, bj) && bi < i && best == CandidateCost(wEdges, tEdges, band, col, n, bi, bj)
      invariant best.Fin? ==> forall i', j' :: Unpaired(col, i', j') && i' < i && PairBefore(bi, bj, i', j')
                                ==> Gt(CandidateCost(wEdges, tEdges, band, col, n, i', j'), best)
    {
      if col.templateToWorld[i] >= 0 {
        i := i + 1;
        continue;
      }
      var j := 0;
      while j < numP
        invariant 0 <= j <= numP
        invariant forall i', j' :: Unpaired(col, i', j') && PairBefore(i', j', i, j)
                    ==> Le(best, CandidateCost(wEdges, tEdges, band, col, n, i', j'))
        invariant best.Fin? ==> Unpaired(col, bi, bj) && PairBefore(bi, bj, i, j)
                                && best == CandidateCost(wEdges, tEdges, band, col, n, bi, bj)
        invariant best.Fin? ==> forall i', j' :: Unpaired(col, i', j') && PairBefore(i', j', i, j) && PairBefore(bi, bj, i', j')
                                  ==> Gt(CandidateCost(wEdges, tEdges, band, col, n, i', j'), best)
      {
        if col.worldToTemplate[j] >= 0 {
          j := j + 1;
          continue;
        }
        var cost := Cost(wEdges, tEdges, band, col, n, i, j);
        if Gt(cost, best) {
          j := j + 1;
          continue;
        }
        forall i', j' | Unpaired(col, i', j') && PairBefore(i', j', i, j)
          ensures Le(cost, CandidateCost(wEdges, tEdges, band, col, n, i', j'))
        {
          LeTransitive(cost, best, CandidateCost(wEdges, tEdges, band, col, n, i', j'));
        }
        best, bi, bj := cost, i, j;
        j := j + 1;
      }
      i := i + 1;
    }
  }

  // ---------------------------------------------------------------------------
  // Extension by one pair at a time (:738-827)

  /** What BestExtension promises: (best, bi, bj) is the cheapest extension of the first n pairs of col, the last to reach it. */
  ghost predicate IsBestExtension(wEdges: Matrix, tEdges: Matrix, band: Band, col: Column, n: nat, best: ExtReal, bi: int, bj: int) {
    n <= |col.templateIdx| && n <= |col.worldIdx|
    && (forall i, j :: Unpaired(col, i, j) ==> Le(best, CandidateCost(wEdges, tEdges, band, col, n, i, j)))
    && (best.Fin? ==> Unpaired(col, bi, bj) && best == CandidateCost(wEdges, tEdges, band, col, n, bi, bj))
    && (best.Fin? ==> forall i, j :: Unpaired(col, i, j) && PairBefore(bi, bj, i, j)
                       ==> Gt(CandidateCost(wEdges, tEdges, band, col, n, i, j), best))
  }

  /**
   * The cheapest extension is determined: its cost always, and its pair
   * whenever the cost is finite (an infinite cost ends the extension loop
   * before the pair is used).
   */
  lemma BestExtensionUnique(wEdges: Matrix, tEdges: Matrix, band: Band, col: Column, n: nat,
                            best: ExtReal, bi: int, bj: int, best': ExtReal, bi': int, bj': int)
    requires IsBestExtension(wEdges, tEdges, band, col, n, best, bi, bj)
    requires IsBestExtension(wEdges, tEdges, band, col, n, best', bi', bj')
    ensures best == best'
    ensures best.Fin? ==> bi == bi' && bj == bj'
  {
    if best.Fin? {
      assert Le(best', best);
    }
    if best'.Fin? {
      assert Le(best, best');
    }
    if best.Fin? {
      assert !Gt(CandidateCost(wEdges, tEdges, band, col, n, bi', bj'), best);
      assert !Gt(CandidateCost(wEdges, tEdges, band, col, n, bi, bj), best');
      assert !PairBefore(bi, bj, bi', bj') && !PairBefore(bi', bj', bi, bj);
    }
  }

  /** The extension test of :803-806: the residual with one more pair exceeds residuum_max[k] or the stored best_residuum[k]. */
  predicate Stops(my: ExtReal, k: nat, stored: ExtReal) {
    Gt(my, Fin(ResiduumMax(k))) || Gt(my, stored)
  }

  /**
   * Step k of the extension loop stored the cheapest extension (cost, i, j)
   * of column k - 1 as entry k, since the extended residual passed the test
   * against residuum_max[k] and the entry stored before.
   */
  ghost predicate ExtendedAt(tables: seq<Column>, bestRes: seq<ExtReal>, wEdges: Matrix, tEdges: Matrix, band: Band,
                             k: nat, cost: ExtReal, i: int, j: int, stored: ExtReal) {
    1 <= k < |tables| && k < |bestRes|
    && IsBestExtension(wEdges, tEdges, band, tables[k - 1], k, cost, i, j)
    && bestRes[k] == Add(bestRes[k - 1], cost)
    && !Stops(bestRes[k], k, stored)
    && 0 <= i < |tables[k - 1].templateToWorld| && 0 <= j < |tables[k - 1].worldToTemplate|
    && k < |tables[k - 1].templateIdx| && k < |tables[k - 1].worldIdx|
    && tables[k] == ExtendColumn(tables[k - 1], k, i, j)
  }

  /** An entry equal to a backed one is backed. */
  lemma EntryKept(col: Column, r: ExtReal, col': Column, r': ExtReal, k: nat, numTemp: nat, numP: nat,
                  wEdges: Matrix, tEdges: Matrix, band: Band)
    requires EntryBacked(col, r, k, numTemp, numP, wEdges, tEdges, band) && col' == col && r' == r
    ensures EntryBacked(col', r', k, numTemp, numP, wEdges, tEdges, band)
  {
  }

  /** Storing a backed column k with its residual keeps the invariant. */
  lemma StoreKeepsTables(tables: seq<Column>, bestRes: seq<ExtReal>, numTemp: nat, numP: nat,
                         wEdges: Matrix, tEdges: Matrix, band: Band, k: nat, col: Column, r: real)
    requires TablesOk(tables, bestRes, numTemp, numP, wEdges, tEdges, band)
    requires 2 <= k < numTemp && (k >= 3 ==> bestRes[k - 1].Fin?)
    requires Backs(col, k + 1, r, numTemp, numP, wEdges, tEdges, band)
    ensures TablesOk(tables[k := col], bestRes[k := Fin(r)], numTemp, numP, wEdges, tEdges, band)
  {
    var tables', bestRes' := tables[k := col], bestRes[k := Fin(r)];
    forall k' | 2 <= k' < numTemp
      ensures EntryBacked(tables'[k'], bestRes'[k'], k', numTemp, numP, wEdges, tEdges, band)
    {
      if k' != k {
        assert EntryBacked(tables[k'], bestRes[k'], k', numTemp, numP, wEdges, tEdges, band);
        EntryKept(tables[k'], bestRes[k'], tables'[k'], bestRes'[k'], k', numTemp, numP, wEdges, tEdges, band);
      } else {
        assert EntryBacked(col, Fin(r), k, numTemp, numP, wEdges, tEdges, band);
        EntryKept(col, Fin(r), tables'[k], bestRes'[k], k, numTemp, numP, wEdges, tEdges, band);
      }
    }
    StoreKeepsRun(bestRes, k, Fin(r));
  }

  /** The cheapest extension of a backed column with k pairs, when accepted, backs the sum of the two residuals. */
  lemma ExtendBacks(col: Column, k: nat, r: real, numTemp: nat, numP: nat,
                    wEdges: Matrix, tEdges: Matrix, band: Band, cost: ExtReal, i: int, j: int)
    requires Backs(col, k, r, numTemp, numP, wEdges, tEdges, band) && Symmetric(tEdges) && k < numTemp
    requires cost.Fin? && Unpaired(col, i, j)
    requires cost == CandidateCost(wEdges, tEdges, band, col, k, i, j)
    requires r + cost.v <= ResiduumMax(k)
    ensures k < numP
    ensures Backs(ExtendColumn(col, k, i, j), k + 1, r + cost.v, numTemp, numP, wEdges, tEdges, band)
  {
    ExtendValid(col, k, numTemp, numP, i, j);
    var ext := ExtendColumn(col, k, i, j);
    var ts, ws := col.templateIdx[..k], col.worldIdx[..k];
    CostMeaning(wEdges, tEdges, band, ts, ws, i, j);
    ExtendResidual(wEdges, tEdges, ts, ws, i, j);
    forall p, q | 0 <= p < q < k + 1
      ensures InBand(WorldEdge(wEdges, ext.worldIdx[p], ext.worldIdx[q]), band)
    {
      if q < k {
        assert ext.worldIdx[p] == col.worldIdx[p] && ext.worldIdx[q] == col.worldIdx[q];
      } else {
        assert ext.worldIdx[p] == ws[p] && ext.worldIdx[q] == j;
      }
    }
  }

  /**
   * The while loop over my_num_corres: column k - 1 is extended by the
   * cheapest unpaired pair for as long as the residual stays within
   * residuum_max[k] and does not exceed best_residuum[k]. The ghost results
   * name the step where the loop stopped (numTemp when it ran out) and the
   * cheapest extension found at every step it reached.
   */
  method Extend(tables: seq<Column>, bestRes: seq<ExtReal>, numTemp: nat, numP: nat,
                wEdges: Matrix, tEdges: Matrix, band: Band)
    returns (tables': seq<Column>, bestRes': seq<ExtReal>,
             ghost stop: nat, ghost costs: seq<ExtReal>, ghost bestI: seq<int>, ghost bestJ: seq<int>)
    requires TablesOk(tables, bestRes, numTemp, numP, wEdges, tEdges, band) && Symmetric(tEdges)
    requires bestRes[2].Fin?
    ensures TablesOk(tables', bestRes', numTemp, numP, wEdges, tEdges, band)
    ensures NoWorse(bestRes', bestRes)
    ensures 3 <= stop <= numTemp && |costs| == numTemp && |bestI| == numTemp && |bestJ| == numTemp
    ensures forall k :: 3 <= k < stop ==>
              ExtendedAt(tables', bestRes', wEdges, tEdges, band, k, costs[k], bestI[k], bestJ[k], bestRes[k])
    ensures stop < numTemp ==>
              IsBestExtension(wEdges, tEdges, band, tables'[stop - 1], stop, costs[stop], bestI[stop], bestJ[stop])
              && Stops(Add(bestRes'[stop - 1], costs[stop]), stop, bestRes[stop])
    ensures forall k :: 0 <= k < numTemp && (k < 3 || stop <= k) ==> tables'[k] == tables[k] && bestRes'[k] == bestRes[k]
  {
    tables', bestRes' := tables, bestRes;
    costs, bestI, bestJ := seq(numTemp, _ => Inf), seq(numTemp, _ => -1), seq(numTemp, _ => -1);
    var k := 3;
    while k < numTemp
      invariant ExtendInv(tables, bestRes, tables', bestRes', costs, bestI, bestJ, k, numTemp, numP, wEdges, tEdges, band)
    {
      InvBacked(tables, bestRes, tables', bestRes', costs, bestI, bestJ, k, numTemp, numP, wEdges, tEdges, band);
      var cost, i, j := BestExtension(wEdges, tEdges, band, tables'[k - 1], k);
      var my := Add(bestRes'[k - 1], cost);
      if Gt(my, Fin(ResiduumMax(k))) || Gt(my, bestRes'[k]) {
        StopStep(tables, bestRes, tables', bestRes', costs, bestI, bestJ, k, numTemp, numP, wEdges, tEdges, band, cost, i, j);
        costs, bestI, bestJ := costs[k := cost], bestI[k := i], bestJ[k := j];
        stop := k;
        return;
      }
      StoreStep(tables, bestRes, tables', bestRes', costs, bestI, bestJ, k, numTemp, numP, wEdges, tEdges, band, cost, i, j);
      tables' := tables'[k := ExtendColumn(tables'[k - 1], k, i, j)];
      bestRes' := bestRes'[k := my];
      costs, bestI, bestJ := costs[k := cost], bestI[k := i], bestJ[k := j];
      k := k + 1;
    }
    stop := k;
  }

  /**
   * The invariant of the extension loop before step k: the tables are
   * consistent and no worse than at the start, steps 3 to k - 1 are recorded,
   * and the other entries are those of the start.
   */
  ghost predicate ExtendInv(tables: seq<Column>, bestRes: seq<ExtReal>, tables': seq<Column>, bestRes': seq<ExtReal>,
                            costs: seq<ExtReal>, bestI: seq<int>, bestJ: seq<int>, k: nat,
                            numTemp: nat, numP: nat, wEdges: Matrix, tEdges: Matrix, band: Band) {
    3 <= k <= numTemp
    && TablesOk(tables, bestRes, numTemp, numP, wEdges, tEdges, band)
    && TablesOk(tables', bestRes', numTemp, numP, wEdges, tEdges, band)
    && bestRes'[k - 1].Fin?
    && NoWorse(bestRes', bestRes)
    && |costs| == numTemp && |bestI| == numTemp && |bestJ| == numTemp
    && (forall k' :: 3 <= k' < k ==>
          ExtendedAt(tables', bestRes', wEdges, tEdges, band, k', costs[k'], bestI[k'], bestJ[k'], bestRes[k']))
    && (forall k' :: 0 <= k' < numTemp && (k' < 3 || k <= k') ==> tables'[k'] == tables[k'] && bestRes'[k'] == bestRes[k'])
  }

  /** Before step k, column k - 1 backs its finite residual, and entry k is still the one of the start. */
  lemma InvBacked(tables: seq<Column>, bestRes: seq<ExtReal>, tables': seq<Column>, bestRes': seq<ExtReal>,
                  costs: seq<ExtReal>, bestI: seq<int>, bestJ: seq<int>, k: nat,
                  numTemp: nat, numP: nat, wEdges: Matrix, tEdges: Matrix, band: Band)
    requires ExtendInv(tables, bestRes, tables', bestRes', costs, bestI, bestJ, k, numTemp, numP, wEdges, tEdges, band)
    requires k < numTemp
    ensures |tables'| == numTemp && |bestRes'| == numTemp && bestRes'[k - 1].Fin?
    ensures Backs(tables'[k - 1], k, bestRes'[k - 1].v, numTemp, numP, wEdges, tEdges, band)
    ensures k - 1 < |tables'[k - 1].templateIdx| && k - 1 < |tables'[k - 1].worldIdx|
    ensures bestRes'[k] == bestRes[k]
  {
    assert EntryBacked(tables'[k - 1], bestRes'[k - 1], k - 1, numTemp, numP, wEdges, tEdges, band);
  }

  /** A step that fails the test ends the loop with every promise of Extend kept. */
  lemma StopStep(tables: seq<Column>, bestRes: seq<ExtReal>, tables': seq<Column>, bestRes': seq<ExtReal>,
                 costs: seq<ExtReal>, bestI: seq<int>, bestJ: seq<int>, k: nat,
                 numTemp: nat, numP: nat, wEdges: Matrix, tEdges: Matrix, band: Band, cost: ExtReal, i: int, j: int)
    requires ExtendInv(tables, bestRes, tables', bestRes', costs, bestI, bestJ, k, numTemp, numP, wEdges, tEdges, band)
    requires k < numTemp
    requires IsBestExtension(wEdges, tEdges, band, tables'[k - 1], k, cost, i, j)
    requires Stops(Add(bestRes'[k - 1], cost), k, bestRes'[k])
    ensures forall k' :: 3 <= k' < k ==>
              ExtendedAt(tables', bestRes', wEdges, tEdges, band, k',
                         costs[k := cost][k'], bestI[k := i][k'], bestJ[k := j][k'], bestRes[k'])
    ensures IsBestExtension(wEdges, tEdges, band, tables'[k - 1], k, costs[k := cost][k], bestI[k := i][k], bestJ[k := j][k])
    ensures Stops(Add(bestRes'[k - 1], costs[k := cost][k]), k, bestRes[k])
  {
    ExtendedKept(tables', bestRes', costs, bestI, bestJ, wEdges, tEdges, band, k,
                 tables'[k], bestRes'[k], cost, i, j, bestRes);
    assert tables'[k := tables'[k]] == tables' && bestRes'[k := bestRes'[k]] == bestRes';
  }

  /** A step that passes the test stores the extension and keeps the invariant for the next step. */
  lemma StoreStep(tables: seq<Column>, bestRes: seq<ExtReal>, tables': seq<Column>, bestRes': seq<ExtReal>,
                  costs: seq<ExtReal>, bestI: seq<int>, bestJ: seq<int>, k: nat,
                  numTemp: nat, numP: nat, wEdges: Matrix, tEdges: Matrix, band: Band, cost: ExtReal, i: int, j: int)
    requires ExtendInv(tables, bestRes, tables', bestRes', costs, bestI, bestJ, k, numTemp, numP, wEdges, tEdges, band)
    requires k < numTemp && Symmetric(tEdges)
    requires IsBestExtension(wEdges, tEdges, band, tables'[k - 1], k, cost, i, j)
    requires !Stops(Add(bestRes'[k - 1], cost), k, bestRes'[k])
    ensures 0 <= i < |tables'[k - 1].templateToWorld| && 0 <= j < |tables'[k - 1].worldToTemplate|
    ensures k < |tables'[k - 1].templateIdx| && k < |tables'[k - 1].worldIdx|
    ensures ExtendInv(tables, bestRes, tables'[k := ExtendColumn(tables'[k - 1], k, i, j)],
                      bestRes'[k := Add(bestRes'[k - 1], cost)],
                      costs[k := cost], bestI[k := i], bestJ[k := j], k + 1, numTemp, numP, wEdges, tEdges, band)
  {
    StoreStepTables(tables, bestRes, tables', bestRes', costs, bestI, bestJ, k, numTemp, numP, wEdges, tEdges, band, cost, i, j);
    StoreStepRecords(tables, bestRes, tables', bestRes', costs, bestI, bestJ, k, numTemp, numP, wEdges, tEdges, band, cost, i, j);
  }

  /** The stored extension keeps the table invariant and makes no entry worse. */
  lemma StoreStepTables(tables: seq<Column>, bestRes: seq<ExtReal>, tables': seq<Column>, bestRes': seq<ExtReal>,
                        costs: seq<ExtReal>, bestI: seq<int>, bestJ: seq<int>, k: nat,
                        numTemp: nat, numP: nat, wEdges: Matrix, tEdges: Matrix, band: Band, cost: ExtReal, i: int, j: int)
    requires ExtendInv(tables, bestRes, tables', bestRes', costs, bestI, bestJ, k, numTemp, numP, wEdges, tEdges, band)
    requires k < numTemp && Symmetric(tEdges)
    requires IsBestExtension(wEdges, tEdges, band, tables'[k - 1], k, cost, i, j)
    requires !Stops(Add(bestRes'[k - 1], cost), k, bestRes'[k])
    ensures 0 <= i < |tables'[k - 1].templateToWorld| && 0 <= j < |tables'[k - 1].worldToTemplate|
    ensures k < |tables'[k - 1].templateIdx| && k < |tables'[k - 1].worldIdx|
    ensures TablesOk(tables'[k := ExtendColumn(tables'[k - 1], k, i, j)], bestRes'[k := Add(bestRes'[k - 1], cost)],
                     numTemp, numP, wEdges, tEdges, band)
    ensures NoWorse(bestRes'[k := Add(bestRes'[k - 1], cost)], bestRes)
  {
    InvBacked(tables, bestRes, tables', bestRes', costs, bestI, bestJ, k, numTemp, numP, wEdges, tEdges, band);
    var my := Add(bestRes'[k - 1], cost);
    ExtendBacks(tables'[k - 1], k, bestRes'[k - 1].v, numTemp, numP, wEdges, tEdges, band, cost, i, j);
    StoreKeepsTables(tables', bestRes', numTemp, numP, wEdges, tEdges, band, k,
                     ExtendColumn(tables'[k - 1], k, i, j), my.v);
    StoreNoWorse(bestRes, bestRes', k, my);
  }

  /** Storing at k a residual no worse than entry k keeps every entry no worse than at the start. */
  lemma StoreNoWorse(bestRes: seq<ExtReal>, bestRes': seq<ExtReal>, k: nat, my: ExtReal)
    requires k < |bestRes'| && NoWorse(bestRes', bestRes) && Le(my, bestRes'[k])
    ensures NoWorse(bestRes'[k := my], bestRes)
  {
    var bestRes2 := bestRes'[k := my];
    assert NoWorse(bestRes2, bestRes') by {
      assert Le(bestRes2[k], bestRes'[k]);
    }
    NoWorseTransitive(bestRes2, bestRes', bestRes);
  }

  /** The stored extension records step k and leaves the entries from k + 1 on as they were. */
  lemma StoreStepRecords(tables: seq<Column>, bestRes: seq<ExtReal>, tables': seq<Column>, bestRes': seq<ExtReal>,
                         costs: seq<ExtReal>, bestI: seq<int>, bestJ: seq<int>, k: nat,
                         numTemp: nat, numP: nat, wEdges: Matrix, tEdges: Matrix, band: Band, cost: ExtReal, i: int, j: int)
    requires ExtendInv(tables, bestRes, tables', bestRes', costs, bestI, bestJ, k, numTemp, numP, wEdges, tEdges, band)
    requires k < numTemp
    requires 0 <= i < |tables'[k - 1].templateToWorld| && 0 <= j < |tables'[k - 1].worldToTemplate|
    requires k < |tables'[k - 1].templateIdx| && k < |tables'[k - 1].worldIdx|
    requires IsBestExtension(wEdges, tEdges, band, tables'[k - 1], k, cost, i, j)
    requires !Stops(Add(bestRes'[k - 1], cost), k, bestRes'[k])
    ensures forall k' :: 3 <= k' < k + 1 ==>
              ExtendedAt(tables'[k := ExtendColumn(tables'[k - 1], k, i, j)], bestRes'[k := Add(bestRes'[k - 1], cost)],
                         wEdges, tEdges, band, k', costs[k := cost][k'], bestI[k := i][k'], bestJ[k := j][k'], bestRes[k'])
    ensures forall k' :: 0 <= k' < numTemp && (k' < 3 || k + 1 <= k') ==>
              tables'[k := ExtendColumn(tables'[k - 1], k, i, j)][k'] == tables[k']
              && bestRes'[k := Add(bestRes'[k - 1], cost)][k'] == bestRes[k']
  {
    InvBacked(tables, bestRes, tables', bestRes', costs, bestI, bestJ, k, numTemp, numP, wEdges, tEdges, band);
    var my := Add(bestRes'[k - 1], cost);
    ExtendedKept(tables', bestRes', costs, bestI, bestJ, wEdges, tEdges, band, k,
                 ExtendColumn(tables'[k - 1], k, i, j), my, cost, i, j, bestRes);
    StepRecorded(tables', bestRes', wEdges, tEdges, band, k, cost, i, j, bestRes[k]);
  }

  /** Storing the cheapest extension of column k - 1 that passed the test records step k. */
  lemma StepRecorded(tables: seq<Column>, bestRes: seq<ExtReal>, wEdges: Matrix, tEdges: Matrix, band: Band,
                     k: nat, cost: ExtReal, i: int, j: int, stored: ExtReal)
    requires 1 <= k < |tables| && k < |bestRes|
    requires IsBestExtension(wEdges, tEdges, band, tables[k - 1], k, cost, i, j)
    requires 0 <= i < |tables[k - 1].templateToWorld| && 0 <= j < |tables[k - 1].worldToTemplate|
    requires k < |tables[k - 1].templateIdx| && k < |tables[k - 1].worldIdx|
    requires !Stops(Add(bestRes[k - 1], cost), k, stored)
    ensures ExtendedAt(tables[k := ExtendColumn(tables[k - 1], k, i, j)], bestRes[k := Add(bestRes[k - 1], cost)],
                       wEdges, tEdges, band, k, cost, i, j, stored)
  {
  }

  /** Changing entry k and the records at k keeps every step recorded below k. */
  lemma ExtendedKept(tables: seq<Column>, bestRes: seq<ExtReal>, costs: seq<ExtReal>, bestI: seq<int>, bestJ: seq<int>,
                     wEdges: Matrix, tEdges: Matrix, band: Band, k: nat,
                     col: Column, r: ExtReal, cost: ExtReal, i: int, j: int, stored: seq<ExtReal>)
    requires k < |tables| && k < |bestRes|
    requires |costs| == |bestI| == |bestJ| == |stored| == |tables|
    requires forall k' :: 3 <= k' < k ==>
               ExtendedAt(tables, bestRes, wEdges, tEdges, band, k', costs[k'], bestI[k'], bestJ[k'], stored[k'])
    ensures forall k' :: 3 <= k' < k ==>
              ExtendedAt(tables[k := col], bestRes[k := r], wEdges, tEdges, band, k',
                         costs[k := cost][k'], bestI[k := i][k'], bestJ[k := j][k'], stored[k'])
  {
    forall k' | 3 <= k' < k
      ensures ExtendedAt(tables[k := col], bestRes[k := r], wEdges, tEdges, band, k',
                         costs[k := cost][k'], bestI[k := i][k'], bestJ[k := j][k'], stored[k'])
    {
      assert ExtendedAt(tables, bestRes, wEdges, tEdges, band, k', costs[k'], bestI[k'], bestJ[k'], stored[k']);
      assert tables[k := col][k' - 1] == tables[k' - 1] && tables[k := col][k'] == tables[k'];
      assert bestRes[k := r][k' - 1] == bestRes[k' - 1] && bestRes[k := r][k'] == bestRes[k'];
    }
  }

  // ---------------------------------------------------------------------------
  // Triangles from a seed (:660-735)

  /** The triangle (x, y, z) <-> (a, b, c), with r the sum the triangle step computes, backs r. */
  lemma TriangleBacks(numTemp: nat, numP: nat, wEdges: Matrix, tEdges: Matrix, band: Band, m: EdgeMatch, c: nat, z: nat, r: real)
    requires ValidSeed(m, wEdges, numTemp, numP, band)
    requires c < numP && c != m.a && c != m.b && z < numTemp && z != m.x && z != m.y
    requires InBand(WorldEdge(wEdges, m.a, c), band) && InBand(WorldEdge(wEdges, m.b, c), band)
    requires r == TriangleCost(wEdges, tEdges, Triangle(m, c, z)) && r <= ResiduumMax(2)
    ensures Backs(TriangleColumn(m.x, m.y, z, m.a, m.b, c, numTemp, numP), 3, r, numTemp, numP, wEdges, tEdges, band)
  {
    TriangleSum(wEdges, tEdges, m.x, m.y, z, m.a, m.b, c, r);
    TriangleValid(m.x, m.y, z, m.a, m.b, c, numTemp, numP);
    TrianglePairs(m.x, m.y, z, m.a, m.b, c, numTemp, numP);
    ThreePairsBack(TriangleColumn(m.x, m.y, z, m.a, m.b, c, numTemp, numP), numTemp, numP, wEdges, tEdges, band,
                   m.x, m.y, z, m.a, m.b, c, r);
  }

  /** The sum the triangle step computes is the residual of the three pairs. */
  lemma TriangleSum(wEdges: Matrix, tEdges: Matrix, x: int, y: int, z: int, a: int, b: int, c: int, r: real)
    requires r == Sq(WorldEdge(wEdges, a, b) - At(tEdges, x, y))
                + Sq(WorldEdge(wEdges, a, c) - At(tEdges, x, z))
                + Sq(WorldEdge(wEdges, b, c) - At(tEdges, y, z))
    ensures r == Residual(wEdges, tEdges, [x, y, z], [a, b, c])
  {
    TriangleResidual(wEdges, tEdges, x, y, z, a, b, c);
  }

  /** Three valid pairs whose three world edges are in the band back their residual. */
  lemma ThreePairsBack(col: Column, numTemp: nat, numP: nat, wEdges: Matrix, tEdges: Matrix, band: Band,
                       x: int, y: int, z: int, a: int, b: int, c: int, r: real)
    requires ValidColumn(col, 3, numTemp, numP)
    requires col.templateIdx[..3] == [x, y, z] && col.worldIdx[..3] == [a, b, c]
    requires InBand(WorldEdge(wEdges, a, b), band) && InBand(WorldEdge(wEdges, a, c), band)
    requires InBand(WorldEdge(wEdges, b, c), band)
    requires r == Residual(wEdges, tEdges, [x, y, z], [a, b, c]) && r <= ResiduumMax(2)
    ensures Backs(col, 3, r, numTemp, numP, wEdges, tEdges, band)
  {
    assert col.worldIdx[0] == a && col.worldIdx[1] == b && col.worldIdx[2] == c by {
      assert col.worldIdx[..3][0] == a && col.worldIdx[..3][1] == b && col.worldIdx[..3][2] == c;
    }
  }

  // ---------------------------------------------------------------------------
  // best_residuum[2] over the triangles in the order the loops visit them

  /** A triangle the loops visit: the seed m, the third world point c and the third template point z. */
  datatype Triangle = Triangle(m: EdgeMatch, c: int, z: int)

  /** my_residuum of the triangle step (:697-701): the squared differences of its three world and template edges. */
  function TriangleCost(wEdges: Matrix, tEdges: Matrix, t: Triangle): real {
    Sq(WorldEdge(wEdges, t.m.a, t.m.b) - At(tEdges, t.m.x, t.m.y))
    + Sq(WorldEdge(wEdges, t.m.a, t.c) - At(tEdges, t.m.x, t.z))
    + Sq(WorldEdge(wEdges, t.m.b, t.c) - At(tEdges, t.m.y, t.z))
  }

  /** The triangle passes every test of the loops over c and z except the comparison with best_residuum[2]. */
  predicate Admissible(t: Triangle, numTemp: nat, numP: nat, wEdges: Matrix, tEdges: Matrix, band: Band) {
    ValidSeed(t.m, wEdges, numTemp, numP, band)
    && 0 <= t.c < numP && t.c != t.m.a && t.c != t.m.b
    && InBand(WorldEdge(wEdges, t.m.a, t.c), band) && InBand(WorldEdge(wEdges, t.m.b, t.c), band)
    && 0 <= t.z < numTemp && t.z != t.m.x && t.z != t.m.y
    && TriangleCost(wEdges, tEdges, t) <= ResiduumMax(2)
  }

  /** Entry 2 of the tables: best_residuum[2] with its column. */
  datatype Best = Best(res: ExtReal, col: Column)

  /** One triangle step on entry 2: an admissible triangle that is no worse than the entry replaces it. */
  function StoreTriangle(t: Triangle, cur: Best, numTemp: nat, numP: nat, wEdges: Matrix, tEdges: Matrix, band: Band): Best {
    if Admissible(t, numTemp, numP, wEdges, tEdges, band) && Le(Fin(TriangleCost(wEdges, tEdges, t)), cur.res)
    then Best(Fin(TriangleCost(wEdges, tEdges, t)), TriangleColumn(t.m.x, t.m.y, t.z, t.m.a, t.m.b, t.c, numTemp, numP))
    else cur
  }

  /** Entry 2 after the triangle steps of visits, taken in order from start. */
  function BestTriangle(visits: seq<Triangle>, start: Best, numTemp: nat, numP: nat, wEdges: Matrix, tEdges: Matrix, band: Band): Best {
    if visits == [] then start
    else StoreTriangle(visits[|visits| - 1], BestTriangle(visits[..|visits| - 1], start, numTemp, numP, wEdges, tEdges, band), numTemp, numP, wEdges, tEdges, band)
  }

  /** The visits of the loop over z for the seed m and the third world point c. */
  function TrianglesAt(m: EdgeMatch, c: int, numTemp: nat): seq<Triangle> {
    seq(numTemp, z => Triangle(m, c, z))
  }

  /** The visits of the loops over c < n and z for the seed m. */
  function SeedTriangles(m: EdgeMatch, n: nat, numTemp: nat): seq<Triangle> {
    if n == 0 then [] else SeedTriangles(m, n - 1, numTemp) + TrianglesAt(m, n - 1, numTemp)
  }

  /** The visits of the whole search, one seed after the other. */
  function SearchTriangles(order: seq<EdgeMatch>, numP: nat, numTemp: nat): seq<Triangle> {
    if order == [] then []
    else SearchTriangles(order[..|order| - 1], numP, numTemp) + SeedTriangles(order[|order| - 1], numP, numTemp)
  }

  /** Visiting v and then w is visiting v + w. */
  lemma {:induction false} BestTriangleAppend(v: seq<Triangle>, w: seq<Triangle>, start: Best,
                                              numTemp: nat, numP: nat, wEdges: Matrix, tEdges: Matrix, band: Band)
    ensures BestTriangle(v + w, start, numTemp, numP, wEdges, tEdges, band) == BestTriangle(w, BestTriangle(v, start, numTemp, numP, wEdges, tEdges, band), numTemp, numP, wEdges, tEdges, band)
  {
    if w == [] {
      assert v + w == v;
    } else {
      var n := |w| - 1;
      BestTriangleAppend(v, w[..n], start, numTemp, numP, wEdges, tEdges, band);
      assert (v + w)[..|v + w| - 1] == v + w[..n];
      assert (v + w)[|v + w| - 1] == w[n];
    }
  }

  /** Visits without an admissible triangle leave entry 2 as it is. */
  lemma {:induction false} BestTriangleSkips(v: seq<Triangle>, start: Best,
                                             numTemp: nat, numP: nat, wEdges: Matrix, tEdges: Matrix, band: Band)
    requires forall q :: 0 <= q < |v| ==> !Admissible(v[q], numTemp, numP, wEdges, tEdges, band)
    ensures BestTriangle(v, start, numTemp, numP, wEdges, tEdges, band) == start
  {
    if v != [] {
      var n := |v| - 1;
      assert forall q :: 0 <= q < n ==> v[..n][q] == v[q];
      BestTriangleSkips(v[..n], start, numTemp, numP, wEdges, tEdges, band);
    }
  }

  /** Entry 2 after the visits is no worse than at the start, nor than any admissible triangle visited. */
  lemma {:induction false} BestTriangleBound(v: seq<Triangle>, start: Best,
                                             numTemp: nat, numP: nat, wEdges: Matrix, tEdges: Matrix, band: Band)
    ensures Le(BestTriangle(v, start, numTemp, numP, wEdges, tEdges, band).res, start.res)
    ensures forall q :: 0 <= q < |v| && Admissible(v[q], numTemp, numP, wEdges, tEdges, band) ==>
              Le(BestTriangle(v, start, numTemp, numP, wEdges, tEdges, band).res, Fin(TriangleCost(wEdges, tEdges, v[q])))
  {
    if v != [] {
      var n := |v| - 1;
      var prev := BestTriangle(v[..n], start, numTemp, numP, wEdges, tEdges, band);
      var r := BestTriangle(v, start, numTemp, numP, wEdges, tEdges, band);
      BestTriangleBound(v[..n], start, numTemp, numP, wEdges, tEdges, band);
      assert forall q :: 0 <= q < n ==> v[..n][q] == v[q];
      LeTotal(Fin(TriangleCost(wEdges, tEdges, v[n])), prev.res);
      assert Le(r.res, prev.res);
      LeTransitive(r.res, prev.res, start.res);
      forall q | 0 <= q < n && Admissible(v[q], numTemp, numP, wEdges, tEdges, band)
        ensures Le(r.res, Fin(TriangleCost(wEdges, tEdges, v[q])))
      {
        LeTransitive(r.res, prev.res, Fin(TriangleCost(wEdges, tEdges, v[q])));
      }
    }
  }

  /** Every admissible triangle visited from lo on is worse than res. */
  predicate AllWorse(v: seq<Triangle>, lo: int, res: ExtReal, numTemp: nat, numP: nat, wEdges: Matrix, tEdges: Matrix, band: Band) {
    forall q :: lo <= q < |v| && 0 <= q && Admissible(v[q], numTemp, numP, wEdges, tEdges, band) ==> Gt(Fin(TriangleCost(wEdges, tEdges, v[q])), res)
  }

  /** Visit p holds the entry r, and every admissible triangle visited after it is worse. */
  predicate LastBest(v: seq<Triangle>, p: int, r: Best, numTemp: nat, numP: nat, wEdges: Matrix, tEdges: Matrix, band: Band) {
    0 <= p < |v| && Admissible(v[p], numTemp, numP, wEdges, tEdges, band)
    && r == Best(Fin(TriangleCost(wEdges, tEdges, v[p])),
                 TriangleColumn(v[p].m.x, v[p].m.y, v[p].z, v[p].m.a, v[p].m.b, v[p].c, numTemp, numP))
    && AllWorse(v, p + 1, r.res, numTemp, numP, wEdges, tEdges, band)
  }

  /** A visit appended after the visits v[..n] keeps them all worse when it is worse itself. */
  lemma AllWorseAppend(v: seq<Triangle>, lo: int, res: ExtReal, numTemp: nat, numP: nat, wEdges: Matrix, tEdges: Matrix, band: Band)
    requires v != [] && lo <= |v| - 1
    requires AllWorse(v[..|v| - 1], lo, res, numTemp, numP, wEdges, tEdges, band)
    requires Admissible(v[|v| - 1], numTemp, numP, wEdges, tEdges, band) ==> Gt(Fin(TriangleCost(wEdges, tEdges, v[|v| - 1])), res)
    ensures AllWorse(v, lo, res, numTemp, numP, wEdges, tEdges, band)
  {
    var n := |v| - 1;
    forall q | lo <= q < |v| && 0 <= q && Admissible(v[q], numTemp, numP, wEdges, tEdges, band)
      ensures Gt(Fin(TriangleCost(wEdges, tEdges, v[q])), res)
    {
      if q < n {
        assert v[..n][q] == v[q];
      }
    }
  }

  /** The visit whose triangle entry 2 holds after the visits, or -1 when the entry is still the start. */
  function BestVisit(v: seq<Triangle>, start: Best, numTemp: nat, numP: nat, wEdges: Matrix, tEdges: Matrix, band: Band): int {
    if v == [] then -1
    else
      var n := |v| - 1;
      if Admissible(v[n], numTemp, numP, wEdges, tEdges, band) && Le(Fin(TriangleCost(wEdges, tEdges, v[n])), BestTriangle(v[..n], start, numTemp, numP, wEdges, tEdges, band).res)
      then n
      else BestVisit(v[..n], start, numTemp, numP, wEdges, tEdges, band)
  }

  /**
   * Entry 2 after the visits is the start, when every admissible triangle
   * visited is worse than it, or the column of the last admissible triangle
   * with the smallest residual: a tie replaces the earlier triangle.
   */
  lemma {:induction false} BestTriangleWitness(v: seq<Triangle>, start: Best,
                                               numTemp: nat, numP: nat, wEdges: Matrix, tEdges: Matrix, band: Band)
    ensures BestVisit(v, start, numTemp, numP, wEdges, tEdges, band) < 0 ==>
              BestTriangle(v, start, numTemp, numP, wEdges, tEdges, band) == start && AllWorse(v, 0, start.res, numTemp, numP, wEdges, tEdges, band)
    ensures BestVisit(v, start, numTemp, numP, wEdges, tEdges, band) >= 0 ==>
              LastBest(v, BestVisit(v, start, numTemp, numP, wEdges, tEdges, band), BestTriangle(v, start, numTemp, numP, wEdges, tEdges, band), numTemp, numP, wEdges, tEdges, band)
  {
    if v != [] {
      var n := |v| - 1;
      var prev := BestTriangle(v[..n], start, numTemp, numP, wEdges, tEdges, band);
      var r := BestTriangle(v, start, numTemp, numP, wEdges, tEdges, band);
      var p := BestVisit(v[..n], start, numTemp, numP, wEdges, tEdges, band);
      BestTriangleWitness(v[..n], start, numTemp, numP, wEdges, tEdges, band);
      assert r == StoreTriangle(v[n], prev, numTemp, numP, wEdges, tEdges, band);
      if Admissible(v[n], numTemp, numP, wEdges, tEdges, band) && Le(Fin(TriangleCost(wEdges, tEdges, v[n])), prev.res) {
        assert BestVisit(v, start, numTemp, numP, wEdges, tEdges, band) == n;
      } else if p >= 0 {
        assert BestVisit(v, start, numTemp, numP, wEdges, tEdges, band) == p && r == prev;
        assert v[..n][p] == v[p];
        AllWorseAppend(v, p + 1, r.res, numTemp, numP, wEdges, tEdges, band);
      } else {
        assert BestVisit(v, start, numTemp, numP, wEdges, tEdges, band) == p && prev == start && r == start;
        AllWorseAppend(v, 0, start.res, numTemp, numP, wEdges, tEdges, band);
      }
    }
  }

  /** The visits for the third world points up to c are those up to c - 1, then those of c. */
  lemma SeedStep(m: EdgeMatch, c: nat, start: Best, numTemp: nat, numP: nat, wEdges: Matrix, tEdges: Matrix, band: Band)
    ensures BestTriangle(SeedTriangles(m, c + 1, numTemp), start, numTemp, numP, wEdges, tEdges, band)
         == BestTriangle(TrianglesAt(m, c, numTemp), BestTriangle(SeedTriangles(m, c, numTemp), start, numTemp, numP, wEdges, tEdges, band), numTemp, numP, wEdges, tEdges, band)
  {
    BestTriangleAppend(SeedTriangles(m, c, numTemp), TrianglesAt(m, c, numTemp), start, numTemp, numP, wEdges, tEdges, band);
  }

  /** A third world point that is one of the seed's, or whose edges leave the band, changes nothing. */
  lemma ThirdPointSkipped(m: EdgeMatch, c: nat, cur: Best, numTemp: nat, numP: nat, wEdges: Matrix, tEdges: Matrix, band: Band)
    requires c == m.a || c == m.b || !InBand(WorldEdge(wEdges, m.a, c), band) || !InBand(WorldEdge(wEdges, m.b, c), band)
    ensures BestTriangle(TrianglesAt(m, c, numTemp), cur, numTemp, numP, wEdges, tEdges, band) == cur
  {
    BestTriangleSkips(TrianglesAt(m, c, numTemp), cur, numTemp, numP, wEdges, tEdges, band);
  }

  /** The triangle step at z computes the cost of Triangle(m, c, z), and its tests are admissibility. */
  lemma TriangleStep(m: EdgeMatch, c: nat, z: nat, distAB: real, distAC: real, distBC: real, r: real,
                     numTemp: nat, numP: nat, wEdges: Matrix, tEdges: Matrix, band: Band)
    requires ValidSeed(m, wEdges, numTemp, numP, band)
    requires c < numP && c != m.a && c != m.b && z < numTemp
    requires InBand(WorldEdge(wEdges, m.a, c), band) && InBand(WorldEdge(wEdges, m.b, c), band)
    requires distAB == WorldEdge(wEdges, m.a, m.b) - At(tEdges, m.x, m.y)
    requires distAC == WorldEdge(wEdges, m.a, c) - At(tEdges, m.x, z)
    requires distBC == WorldEdge(wEdges, m.b, c) - At(tEdges, m.y, z)
    requires r == Sq(distAB) + Sq(distAC) + Sq(distBC)
    ensures TriangleCost(wEdges, tEdges, Triangle(m, c, z)) == r
    ensures Admissible(Triangle(m, c, z), numTemp, numP, wEdges, tEdges, band) <==> (m.x != z && m.y != z && r <= ResiduumMax(2))
  {
  }

  /** Visit z of the loop over z takes the triangle step on the entry the visits before it left. */
  lemma VisitStep(m: EdgeMatch, c: nat, z: nat, start: Best, numTemp: nat, numP: nat, wEdges: Matrix, tEdges: Matrix, band: Band)
    requires z < numTemp
    ensures BestTriangle(TrianglesAt(m, c, numTemp)[..z + 1], start, numTemp, numP, wEdges, tEdges, band)
         == StoreTriangle(Triangle(m, c, z), BestTriangle(TrianglesAt(m, c, numTemp)[..z], start, numTemp, numP, wEdges, tEdges, band), numTemp, numP, wEdges, tEdges, band)
  {
    var visits := TrianglesAt(m, c, numTemp);
    assert visits[..z + 1][..z] == visits[..z] && visits[..z + 1][z] == Triangle(m, c, z);
  }

  /**
   * The loops over the third world point c and the third template point z
   * for one seed: every triangle within residuum_max[2] that is no worse than
   * best_residuum[2] becomes column 2 and is then extended.
   */
  method TrySeed(m: EdgeMatch, tables: seq<Column>, bestRes: seq<ExtReal>, numTemp: nat, numP: nat,
                 wEdges: Matrix, tEdges: Matrix, band: Band)
    returns (tables': seq<Column>, bestRes': seq<ExtReal>)
    requires TablesOk(tables, bestRes, numTemp, numP, wEdges, tEdges, band) && Symmetric(tEdges)
    requires ValidSeed(m, wEdges, numTemp, numP, band)
    ensures TablesOk(tables', bestRes', numTemp, numP, wEdges, tEdges, band)
    ensures NoWorse(bestRes', bestRes)
    ensures Best(bestRes'[2], tables'[2])
            == BestTriangle(SeedTriangles(m, numP, numTemp), Best(bestRes[2], tables[2]), numTemp, numP, wEdges, tEdges, band)
  {
    tables', bestRes' := tables, bestRes;
    ghost var start := Best(bestRes[2], tables[2]);
    var a, b := m.a, m.b;
    var c := 0;
    while c < numP
      invariant 0 <= c <= numP
      invariant TablesOk(tables', bestRes', numTemp, numP, wEdges, tEdges, band)
      invariant NoWorse(bestRes', bestRes)
      invariant Best(bestRes'[2], tables'[2]) == BestTriangle(SeedTriangles(m, c, numTemp), start, numTemp, numP, wEdges, tEdges, band)
    {
      SeedStep(m, c, start, numTemp, numP, wEdges, tEdges, band);
      ghost var before := bestRes';
      if a == c || b == c {
        ThirdPointSkipped(m, c, Best(bestRes'[2], tables'[2]), numTemp, numP, wEdges, tEdges, band);
      } else {
        var edgeAC := WorldEdge(wEdges, a, c);
        var edgeBC := WorldEdge(wEdges, b, c);
        if edgeAC > band.hi || edgeAC < band.lo || edgeBC > band.hi || edgeBC < band.lo {
          ThirdPointSkipped(m, c, Best(bestRes'[2], tables'[2]), numTemp, numP, wEdges, tEdges, band);
        } else {
          tables', bestRes' := TryTriangles(m, c, tables', bestRes', numTemp, numP, wEdges, tEdges, band);
        }
      }
      NoWorseTransitive(bestRes', before, bestRes);
      c := c + 1;
    }
  }

  /** The loop over the third template point z for the seed m and the third world point c. */
  method TryTriangles(m: EdgeMatch, c: nat, tables: seq<Column>, bestRes: seq<ExtReal>, numTemp: nat, numP: nat,
                      wEdges: Matrix, tEdges: Matrix, band: Band)
    returns (tables': seq<Column>, bestRes': seq<ExtReal>)
    requires TablesOk(tables, bestRes, numTemp, numP, wEdges, tEdges, band) && Symmetric(tEdges)
    requires ValidSeed(m, wEdges, numTemp, numP, band)
    requires c < numP && c != m.a && c != m.b
    requires InBand(WorldEdge(wEdges, m.a, c), band) && InBand(WorldEdge(wEdges, m.b, c), band)
    ensures TablesOk(tables', bestRes', numTemp, numP, wEdges, tEdges, band)
    ensures NoWorse(bestRes', bestRes)
    ensures Best(bestRes'[2], tables'[2])
            == BestTriangle(TrianglesAt(m, c, numTemp), Best(bestRes[2], tables[2]), numTemp, numP, wEdges, tEdges, band)
  {
    tables', bestRes' := tables, bestRes;
    ghost var start := Best(bestRes[2], tables[2]);
    ghost var visits := TrianglesAt(m, c, numTemp);
    var z := 0;
    while z < numTemp
      invariant 0 <= z <= numTemp
      invariant TablesOk(tables', bestRes', numTemp, numP, wEdges, tEdges, band)
      invariant NoWorse(bestRes', bestRes)
      invariant Best(bestRes'[2], tables'[2]) == BestTriangle(visits[..z], start, numTemp, numP, wEdges, tEdges, band)
    {
      VisitStep(m, c, z, start, numTemp, numP, wEdges, tEdges, band);
      ghost var before := bestRes';
      tables', bestRes' := VisitTriangle(m, c, z, tables', bestRes', numTemp, numP, wEdges, tEdges, band);
      NoWorseTransitive(bestRes', before, bestRes);
      z := z + 1;
    }
    assert visits[..numTemp] == visits;
  }

  /** One visit of the triangle loop (:695-735): the triangle of m with c and z is tried against entry 2. */
  method VisitTriangle(m: EdgeMatch, c: nat, z: nat, tables: seq<Column>, bestRes: seq<ExtReal>, numTemp: nat, numP: nat,
                       wEdges: Matrix, tEdges: Matrix, band: Band)
    returns (tables': seq<Column>, bestRes': seq<ExtReal>)
    requires TablesOk(tables, bestRes, numTemp, numP, wEdges, tEdges, band) && Symmetric(tEdges)
    requires ValidSeed(m, wEdges, numTemp, numP, band)
    requires c < numP && c != m.a && c != m.b && z < numTemp
    requires InBand(WorldEdge(wEdges, m.a, c), band) && InBand(WorldEdge(wEdges, m.b, c), band)
    ensures TablesOk(tables', bestRes', numTemp, numP, wEdges, tEdges, band)
    ensures NoWorse(bestRes', bestRes)
    ensures Best(bestRes'[2], tables'[2])
            == StoreTriangle(Triangle(m, c, z), Best(bestRes[2], tables[2]), numTemp, numP, wEdges, tEdges, band)
  {
    var distAB := WorldEdge(wEdges, m.a, m.b) - At(tEdges, m.x, m.y);
    var distAC := WorldEdge(wEdges, m.a, c) - At(tEdges, m.x, z);
    var distBC := WorldEdge(wEdges, m.b, c) - At(tEdges, m.y, z);
    var r := Sq(distAB) + Sq(distAC) + Sq(distBC);
    TriangleStep(m, c, z, distAB, distAC, distBC, r, numTemp, numP, wEdges, tEdges, band);
    tables', bestRes' := tables, bestRes;
    if !(m.x == z || m.y == z || r > ResiduumMax(2) || Gt(Fin(r), bestRes[2])) {
      tables', bestRes' := AcceptTriangle(m, c, z, r, tables, bestRes, numTemp, numP, wEdges, tEdges, band);
    }
  }

  /**
   * An accepted triangle (:706-735) becomes entry 2 with its residual, and
   * the extension loop (:738-827) then grows it.
   */
  method AcceptTriangle(m: EdgeMatch, c: nat, z: nat, r: real, tables: seq<Column>, bestRes: seq<ExtReal>,
                        numTemp: nat, numP: nat, wEdges: Matrix, tEdges: Matrix, band: Band)
    returns (tables': seq<Column>, bestRes': seq<ExtReal>)
    requires TablesOk(tables, bestRes, numTemp, numP, wEdges, tEdges, band) && Symmetric(tEdges)
    requires Admissible(Triangle(m, c, z), numTemp, numP, wEdges, tEdges, band)
    requires r == TriangleCost(wEdges, tEdges, Triangle(m, c, z)) && Le(Fin(r), bestRes[2])
    ensures TablesOk(tables', bestRes', numTemp, numP, wEdges, tEdges, band)
    ensures NoWorse(bestRes', bestRes)
    ensures bestRes'[2] == Fin(r) && tables'[2] == TriangleColumn(m.x, m.y, z, m.a, m.b, c, numTemp, numP)
  {
    TriangleBacks(numTemp, numP, wEdges, tEdges, band, m, c, z, r);
    StoreKeepsTables(tables, bestRes, numTemp, numP, wEdges, tEdges, band, 2, TriangleColumn(m.x, m.y, z, m.a, m.b, c, numTemp, numP), r);
    var triangleTables := tables[2 := TriangleColumn(m.x, m.y, z, m.a, m.b, c, numTemp, numP)];
    var triangle := bestRes[2 := Fin(r)];
    assert NoWorse(triangle, bestRes);
    ghost var stop, costs, bestI, bestJ;
    tables', bestRes', stop, costs, bestI, bestJ := Extend(triangleTables, triangle, numTemp, numP, wEdges, tEdges, band);
    assert bestRes'[2] == triangle[2] && tables'[2] == triangleTables[2];
    NoWorseTransitive(bestRes', triangle, bestRes);
  }

  /** The seed loop (:660-832), over the seeds in the order the queue hands them out. */
  method SearchAll(order: seq<EdgeMatch>, numTemp: nat, numP: nat, wEdges: Matrix, tEdges: Matrix, band: Band)
    returns (tables: seq<Column>, bestRes: seq<ExtReal>)
    requires numTemp >= 3 && Symmetric(tEdges)
    requires forall e :: 0 <= e < |order| ==> ValidSeed(order[e], wEdges, numTemp, numP, band)
    ensures TablesOk(tables, bestRes, numTemp, numP, wEdges, tEdges, band)
    ensures Best(bestRes[2], tables[2])
            == BestTriangle(SearchTriangles(order, numP, numTemp), Best(Inf, EmptyColumn(numTemp, numP)), numTemp, numP, wEdges, tEdges, band)
    ensures LeastLastTriangle(SearchTriangles(order, numP, numTemp), Best(bestRes[2], tables[2]), numTemp, numP, wEdges, tEdges, band)
  {
    tables, bestRes := InitialTables(numTemp, numP), InitialResiduals(numTemp);
    InitialTablesOk(numTemp, numP, wEdges, tEdges, band);
    var e := 0;
    while e < |order|
      invariant 0 <= e <= |order|
      invariant TablesOk(tables, bestRes, numTemp, numP, wEdges, tEdges, band)
      invariant Best(bestRes[2], tables[2])
                == BestTriangle(SearchTriangles(order[..e], numP, numTemp), Best(Inf, EmptyColumn(numTemp, numP)), numTemp, numP, wEdges, tEdges, band)
    {
      assert order[..e + 1][..e] == order[..e] && order[..e + 1][e] == order[e];
      BestTriangleAppend(SearchTriangles(order[..e], numP, numTemp), SeedTriangles(order[e], numP, numTemp),
                         Best(Inf, EmptyColumn(numTemp, numP)), numTemp, numP, wEdges, tEdges, band);
      tables, bestRes := TrySeed(order[e], tables, bestRes, numTemp, numP, wEdges, tEdges, band);
      e := e + 1;
    }
    assert order[..|order|] == order;
    SearchTriangleMeaning(SearchTriangles(order, numP, numTemp), Best(bestRes[2], tables[2]), numTemp, numP, wEdges, tEdges, band);
  }

  /**
   * Entry r is the best triangle of the visits: finite exactly when some
   * visited triangle is admissible, no larger than any admissible cost, and
   * when finite the column of the last admissible triangle of that cost.
   */
  ghost predicate LeastLastTriangle(v: seq<Triangle>, r: Best, numTemp: nat, numP: nat, wEdges: Matrix, tEdges: Matrix, band: Band) {
    (r.res.Fin? <==> exists q :: 0 <= q < |v| && Admissible(v[q], numTemp, numP, wEdges, tEdges, band))
    && (forall q :: 0 <= q < |v| && Admissible(v[q], numTemp, numP, wEdges, tEdges, band) ==> Le(r.res, Fin(TriangleCost(wEdges, tEdges, v[q]))))
    && (r.res.Fin? ==> exists p :: LastBest(v, p, r, numTemp, numP, wEdges, tEdges, band))
  }

  /**
   * best_residuum[2] after the search is finite exactly when some seed has
   * an admissible triangle; then it is the smallest residual of them, and
   * column 2 holds the last triangle, in the order of the loops, that reaches it.
   */
  lemma SearchTriangleMeaning(v: seq<Triangle>, r: Best, numTemp: nat, numP: nat, wEdges: Matrix, tEdges: Matrix, band: Band)
    requires r == BestTriangle(v, Best(Inf, EmptyColumn(numTemp, numP)), numTemp, numP, wEdges, tEdges, band)
    ensures r.res.Fin? <==> exists q :: 0 <= q < |v| && Admissible(v[q], numTemp, numP, wEdges, tEdges, band)
    ensures forall q :: 0 <= q < |v| && Admissible(v[q], numTemp, numP, wEdges, tEdges, band) ==> Le(r.res, Fin(TriangleCost(wEdges, tEdges, v[q])))
    ensures r.res.Fin? ==> exists p :: LastBest(v, p, r, numTemp, numP, wEdges, tEdges, band)
  {
    var start := Best(Inf, EmptyColumn(numTemp, numP));
    BestTriangleBound(v, start, numTemp, numP, wEdges, tEdges, band);
    BestTriangleWitness(v, start, numTemp, numP, wEdges, tEdges, band);
    var p := BestVisit(v, start, numTemp, numP, wEdges, tEdges, band);
    if p >= 0 {
      assert LastBest(v, p, r, numTemp, numP, wEdges, tEdges, band);
    }
    if exists q :: 0 <= q < |v| && Admissible(v[q], numTemp, numP, wEdges, tEdges, band) {
      var q :| 0 <= q < |v| && Admissible(v[q], numTemp, numP, wEdges, tEdges, band);
      assert Le(r.res, Fin(TriangleCost(wEdges, tEdges, v[q])));
    }
  }

  /** k + 1 pairs need k + 1 world points: with fewer than four, best_residuum[3] stays infinite. */
  lemma FoundNeedsPoints(tables: seq<Column>, bestRes: seq<ExtReal>, numTemp: nat, numP: nat,
                         wEdges: Matrix, tEdges: Matrix, band: Band, k: nat)
    requires TablesOk(tables, bestRes, numTemp, numP, wEdges, tEdges, band) && 2 <= k < numTemp
    ensures bestRes[k].Fin? ==> k + 1 <= numP
  {
    if bestRes[k].Fin? {
      assert EntryBacked(tables[k], bestRes[k], k, numTemp, numP, wEdges, tEdges, band);
    }
  }
}
