/**
 * The first half of MarkerTracking::fit3DPointsToObjectTemplate
 * (src/markerTracking/MarkerTracking.cpp): the edge-length matrices of the
 * marker template and of the observed 3D points, the acceptance band for
 * edge lengths, the seed matches pushed into the priority queue, and the
 * order in which the search takes them out.
 */
module TemplateEdges {
  import opened Extended
  import opened EdgeMatches

  /** max_distance: the largest accepted difference of a world and a template edge. */
  const MaxDistance: real := 20.0

  type Matrix = seq<seq<real>>

  predicate IsSquare(m: Matrix, n: nat) {
    |m| == n && forall a :: 0 <= a < n ==> |m[a]| == n
  }

  /** What the code relies on of norm(p - q): symmetric, non-negative and zero on equal points. */
  ghost predicate IsDistance<P(!new)>(dist: (P, P) -> real) {
    forall p: P, q: P :: dist(p, q) == dist(q, p) && dist(p, p) == 0.0 && dist(p, q) >= 0.0
  }

  function Abs(x: real): real {
    if x < 0.0 then -x else x
  }

  // ---------------------------------------------------------------------------
  // Template edges (:549-564)

  /** eMax is the largest entry of the matrix, or its start value 0 when every entry is below that. */
  predicate IsMaxEdge(edges: Matrix, n: nat, eMax: real)
    requires IsSquare(edges, n)
  {
    eMax >= 0.0
    && (forall a, b :: 0 <= a < n && 0 <= b < n ==> edges[a][b] <= eMax)
    && (eMax == 0.0 || exists a, b :: 0 <= a < n && 0 <= b < n && edges[a][b] == eMax)
  }

  /** eMin is the smallest entry off the diagonal, or infinity when there is none. */
  predicate IsMinEdge(edges: Matrix, n: nat, eMin: ExtReal)
    requires IsSquare(edges, n)
  {
    (forall a, b :: 0 <= a < n && 0 <= b < n && a != b ==> Le(eMin, Fin(edges[a][b])))
    && (eMin.Fin? ==> exists a, b :: 0 <= a < n && 0 <= b < n && a != b && edges[a][b] == eMin.v)
    && (eMin.Inf? <==> n < 2)
  }

  /**
   * The inner loop over b for row a: the row of distances from point a, with
   * the running largest entry and smallest entry off the diagonal updated
   * from eMax0 and eMin0 (maxC and minC say where they were last updated).
   */
  method EdgeRow<P>(template: seq<P>, dist: (P, P) -> real, a: nat, eMax0: real, eMin0: ExtReal)
    returns (row: seq<real>, eMax: real, eMin: ExtReal, ghost maxC: int, ghost minC: int)
    requires a < |template|
    ensures |row| == |template| && forall c :: 0 <= c < |template| ==> row[c] == dist(template[a], template[c])
    ensures eMax >= eMax0 && forall c :: 0 <= c < |template| ==> row[c] <= eMax
    ensures eMax == eMax0 || (0 <= maxC < |template| && row[maxC] == eMax)
    ensures Le(eMin, eMin0) && forall c :: 0 <= c < |template| && c != a ==> Le(eMin, Fin(row[c]))
    ensures eMin == eMin0 || (0 <= minC < |template| && minC != a && eMin == Fin(row[minC]))
    ensures |template| >= 2 ==> eMin.Fin?
  {
    var n := |template|;
    row, eMax, eMin := [], eMax0, eMin0;
    maxC, minC := -1, -1;
    var b := 0;
    while b < n
      invariant 0 <= b <= n && |row| == b
      invariant forall c :: 0 <= c < b ==> row[c] == dist(template[a], template[c])
      invariant eMax >= eMax0 && forall c :: 0 <= c < b ==> row[c] <= eMax
      invariant eMax == eMax0 || (0 <= maxC < b && row[maxC] == eMax)
      invariant Le(eMin, eMin0) && forall c :: 0 <= c < b && c != a ==> Le(eMin, Fin(row[c]))
      invariant eMin == eMin0 || (0 <= minC < b && minC != a && eMin == Fin(row[minC]))
      invariant b > (if a == 0 then 1 else 0) ==> eMin.Fin?
    {
      var d := dist(template[a], template[b]);
      row := row + [d];
      if d > eMax {
        eMax := d;
        maxC := b;
      }
      if a != b && Gt(eMin, Fin(d)) {
        eMin := Fin(d);
        minC := b;
      }
      b := b + 1;
    }
  }

  /** The complete template edge matrix, with its largest entry and its smallest entry off the diagonal. */
  method TemplateEdgeMatrix<P>(template: seq<P>, dist: (P, P) -> real) returns (edges: Matrix, eMax: real, eMin: ExtReal)
    ensures IsSquare(edges, |template|)
    ensures forall a, b :: 0 <= a < |template| && 0 <= b < |template| ==> edges[a][b] == dist(template[a], template[b])
    ensures IsMaxEdge(edges, |template|, eMax)
    ensures IsMinEdge(edges, |template|, eMin)
  {
    var n := |template|;
    edges := [];
    eMax, eMin := 0.0, Inf;
    ghost var maxAt: (int, int) := (-1, -1);
    ghost var minAt: (int, int) := (-1, -1);
    var a := 0;
    while a < n
      invariant 0 <= a <= n && |edges| == a
      invariant forall r :: 0 <= r < a ==> |edges[r]| == n
      invariant forall r, c :: 0 <= r < a && 0 <= c < n ==> edges[r][c] == dist(template[r], template[c])
      invariant eMax >= 0.0
      invariant forall r, c :: 0 <= r < a && 0 <= c < n ==> edges[r][c] <= eMax
      invariant eMax != 0.0 ==> 0 <= maxAt.0 < a && 0 <= maxAt.1 < n && edges[maxAt.0][maxAt.1] == eMax
      invariant forall r, c :: 0 <= r < a && 0 <= c < n && r != c ==> Le(eMin, Fin(edges[r][c]))
      invariant eMin.Fin? ==> 0 <= minAt.0 < a && 0 <= minAt.1 < n && minAt.0 != minAt.1
                              && edges[minAt.0][minAt.1] == eMin.v
      invariant eMin.Inf? <==> (a == 0 || n < 2)
    {
      ghost var eMax0, eMin0 := eMax, eMin;
      var row;
      ghost var maxC, minC;
      row, eMax, eMin, maxC, minC := EdgeRow(template, dist, a, eMax, eMin);
      if eMax != eMax0 {
        maxAt := (a, maxC);
      }
      if eMin != eMin0 {
        minAt := (a, minC);
      }
      forall r, c | 0 <= r < a && 0 <= c < n && r != c
        ensures Le(eMin, Fin(edges[r][c]))
      {
        LeTransitive(eMin, eMin0, Fin(edges[r][c]));
      }
      edges := edges + [row];
      a := a + 1;
    }
  }

  /** With a distance, the template edge matrix is symmetric with a zero diagonal. */
  lemma TemplateEdgesSymmetric<P(!new)>(template: seq<P>, dist: (P, P) -> real, edges: Matrix)
    requires IsDistance(dist) && IsSquare(edges, |template|)
    requires forall a, b :: 0 <= a < |template| && 0 <= b < |template| ==> edges[a][b] == dist(template[a], template[b])
    ensures forall a, b :: 0 <= a < |template| && 0 <= b < |template| ==> edges[a][b] == edges[b][a]
    ensures forall a :: 0 <= a < |template| ==> edges[a][a] == 0.0
  {
    forall a, b | 0 <= a < |template| && 0 <= b < |template|
      ensures edges[a][b] == edges[b][a]
    {
      assert dist(template[a], template[b]) == dist(template[b], template[a]);
    }
    forall a | 0 <= a < |template|
      ensures edges[a][a] == 0.0
    {
      assert dist(template[a], template[a]) == 0.0;
    }
  }

  // ---------------------------------------------------------------------------
  // The acceptance band (:566-572)

  /** The band of accepted world edge lengths, [max(0, eMin - 20), eMax + 20]. */
  datatype Band = Band(lo: real, hi: real)

  function AcceptanceBand(eMax: real, eMin: real): (band: Band)
    ensures band.lo >= 0.0 && band.lo >= eMin - MaxDistance && band.hi == eMax + MaxDistance
    ensures band.lo == 0.0 || band.lo == eMin - MaxDistance
  {
    var lo := eMin - MaxDistance;
    Band(if lo < 0.0 then 0.0 else lo, eMax + MaxDistance)
  }

  /** The test `!(w > hi || w < lo)` of the search. */
  predicate InBand(w: real, band: Band) {
    !(w > band.hi || w < band.lo)
  }

  /** Every template edge off the diagonal lies in the band. */
  lemma TemplateEdgesInBand(edges: Matrix, n: nat, eMax: real, eMin: real)
    requires IsSquare(edges, n) && IsMaxEdge(edges, n, eMax) && IsMinEdge(edges, n, Fin(eMin))
    requires forall a, b :: 0 <= a < n && 0 <= b < n ==> edges[a][b] >= 0.0
    ensures forall a, b :: 0 <= a < n && 0 <= b < n && a != b ==> InBand(edges[a][b], AcceptanceBand(eMax, eMin))
  {
  }

  // ---------------------------------------------------------------------------
  // World edges and seed matches (:575-600)

  /** An entry of the world edge matrix: only the upper triangle is filled, the rest stays 0. */
  function UpperEdge<P>(world: seq<P>, dist: (P, P) -> real, a: int, b: int): real
    requires 0 <= a < |world| && 0 <= b < |world|
  {
    if a < b then dist(world[a], world[b]) else 0.0
  }

  predicate IsWorldEdgeMatrix<P>(wEdges: Matrix, world: seq<P>, dist: (P, P) -> real) {
    IsSquare(wEdges, |world|)
    && forall a, b :: 0 <= a < |world| && 0 <= b < |world| ==> wEdges[a][b] == UpperEdge(world, dist, a, b)
  }

  /** A seed: an accepted world edge a < b matched with a template edge x < y within max_distance. */
  predicate IsSeed<P>(m: EdgeMatch, world: seq<P>, dist: (P, P) -> real, tEdges: Matrix, numTemp: nat, band: Band)
    requires IsSquare(tEdges, numTemp)
  {
    0 <= m.a < m.b < |world| && 0 <= m.x < m.y < numTemp
    && InBand(dist(world[m.a], world[m.b]), band)
    && m.dist == Abs(dist(world[m.a], world[m.b]) - tEdges[m.x][m.y])
    && m.dist < MaxDistance
  }

  /** (a, b, x, y) comes before (a', b', x', y') in the order of the four loops. */
  predicate LoopBefore(a: int, b: int, x: int, y: int, a': int, b': int, x': int, y': int) {
    a < a' || (a == a' && (b < b' || (b == b' && (x < x' || (x == x' && y < y')))))
  }

  predicate SeedBefore(m: EdgeMatch, a: int, b: int, x: int, y: int) {
    LoopBefore(m.a, m.b, m.x, m.y, a, b, x, y)
  }

  /** The seeds come in the order of the four loops, each strictly after the one before. */
  predicate InLoopOrder(seeds: seq<EdgeMatch>) {
    forall i, j :: 0 <= i < j < |seeds| ==> SeedBefore(seeds[i], seeds[j].a, seeds[j].b, seeds[j].x, seeds[j].y)
  }

  /** Appending a seed that comes after every seed so far keeps the loop order. */
  lemma AppendKeepsOrder(seeds: seq<EdgeMatch>, m: EdgeMatch)
    requires InLoopOrder(seeds)
    requires forall s :: s in seeds ==> SeedBefore(s, m.a, m.b, m.x, m.y)
    ensures InLoopOrder(seeds + [m])
  {
    var seeds' := seeds + [m];
    forall i, j | 0 <= i < j < |seeds'|
      ensures SeedBefore(seeds'[i], seeds'[j].a, seeds'[j].b, seeds'[j].x, seeds'[j].y)
    {
      if j == |seeds| {
        assert seeds'[i] in seeds;
      } else {
        assert seeds'[i] == seeds[i] && seeds'[j] == seeds[j];
      }
    }
  }

  /** Seeds in loop order hold no seed twice, so the queue holds each accepted match exactly once. */
  lemma {:induction false} LoopOrderNoDuplicates(seeds: seq<EdgeMatch>)
    requires InLoopOrder(seeds)
    ensures forall i, j :: 0 <= i < j < |seeds| ==> seeds[i] != seeds[j]
    ensures |seeds| == |set s | s in seeds|
  {
    if seeds != [] {
      var n := |seeds| - 1;
      var front := seeds[..n];
      assert InLoopOrder(front) by {
        forall i, j | 0 <= i < j < |front|
          ensures SeedBefore(front[i], front[j].a, front[j].b, front[j].x, front[j].y)
        {
          assert front[i] == seeds[i] && front[j] == seeds[j];
        }
      }
      LoopOrderNoDuplicates(front);
      assert seeds[n] !in front by {
        forall i | 0 <= i < n
          ensures front[i] != seeds[n]
        {
          assert SeedBefore(seeds[i], seeds[n].a, seeds[n].b, seeds[n].x, seeds[n].y);
        }
      }
      assert seeds == front + [seeds[n]];
      assert (set s | s in seeds) == (set s | s in front) + {seeds[n]};
    }
  }

  /**
   * The loops over the world pairs a < b: each edge length is stored in the upper
   * triangle, and when it lies in the band every template pair x < y whose
   * length is within max_distance of it is pushed as a seed.
   */
  method WorldEdgesAndSeeds<P>(world: seq<P>, dist: (P, P) -> real, tEdges: Matrix, numTemp: nat, band: Band)
    returns (wEdges: Matrix, seeds: seq<EdgeMatch>)
    requires IsSquare(tEdges, numTemp)
    ensures IsWorldEdgeMatrix(wEdges, world, dist)
    ensures forall m :: m in seeds <==> IsSeed(m, world, dist, tEdges, numTemp, band)
    ensures InLoopOrder(seeds)
  {
    var n := |world|;
    wEdges := [];
    seeds := [];
    var a := 0;
    while a < n
      invariant 0 <= a <= n && |wEdges| == a
      invariant forall r :: 0 <= r < a ==> |wEdges[r]| == n
      invariant forall r, c :: 0 <= r < a && 0 <= c < n ==> wEdges[r][c] == UpperEdge(world, dist, r, c)
      invariant forall m :: m in seeds <==> IsSeed(m, world, dist, tEdges, numTemp, band) && m.a < a
      invariant InLoopOrder(seeds)
    {
      var row := seq(n, _ => 0.0);
      var b := a + 1;
      while b < n
        invariant a + 1 <= b <= n
        invariant |row| == n
        invariant forall c :: 0 <= c < n ==> row[c] == if c < b then UpperEdge(world, dist, a, c) else 0.0
        invariant forall m :: m in seeds <==> IsSeed(m, world, dist, tEdges, numTemp, band) && SeedBefore(m, a, b, 0, 0)
        invariant InLoopOrder(seeds)
      {
        var w := dist(world[a], world[b]);
        row := row[b := w];
        if !(w > band.hi || w < band.lo) {
          var x := 0;
          while x < numTemp
            invariant 0 <= x <= numTemp
            invariant forall m :: m in seeds <==> IsSeed(m, world, dist, tEdges, numTemp, band) && SeedBefore(m, a, b, x, 0)
            invariant InLoopOrder(seeds)
          {
            var y := x + 1;
            while y < numTemp
              invariant x + 1 <= y <= numTemp
              invariant forall m :: m in seeds <==> IsSeed(m, world, dist, tEdges, numTemp, band) && SeedBefore(m, a, b, x, y)
              invariant InLoopOrder(seeds)
            {
              var d := Abs(w - tEdges[x][y]);
              if d < MaxDistance {
                AppendKeepsOrder(seeds, EdgeMatch(d, a, b, x, y));
                seeds := seeds + [EdgeMatch(d, a, b, x, y)];
              }
              y := y + 1;
            }
            x := x + 1;
          }
        }
        b := b + 1;
      }
      wEdges := wEdges + [row];
      a := a + 1;
    }
  }

  // ---------------------------------------------------------------------------
  // The order of the seeds (:655-662, 832)

  /** num_test_edges: fifteen more than twice the number of template edges. */
  function NumTestEdges(numTemp: nat): int {
    15 + numTemp * (numTemp - 1)
  }

  function Min(a: int, b: int): int {
    if a <= b then a else b
  }

  /** The queue without its entry at i. */
  function RemoveAt(queue: seq<EdgeMatch>, i: int): (rest: seq<EdgeMatch>)
    requires 0 <= i < |queue|
    ensures |rest| == |queue| - 1
    ensures multiset(rest) + multiset{queue[i]} == multiset(queue)
    ensures forall r :: r in rest ==> r in queue
  {
    assert queue == queue[..i] + [queue[i]] + queue[i + 1..];
    queue[..i] + queue[i + 1..]
  }

  /**
   * top() followed by pop(): one of the entries with the smallest length
   * difference leaves the queue.
   */
  method Pop(queue: seq<EdgeMatch>) returns (m: EdgeMatch, rest: seq<EdgeMatch>)
    requires queue != []
    ensures |rest| == |queue| - 1 && m in queue
    ensures multiset(rest) + multiset{m} == multiset(queue)
    ensures forall r :: r in rest ==> r in queue && m.dist <= r.dist
  {
    ghost var t := TopExists(queue);
    var top: int :| IsTop(queue, top);
    assert IsTop(queue, top);
    TopIsSmallest(queue, top);
    m := queue[top];
    rest := RemoveAt(queue, top);
  }

  /** The count at which the loop stops: the queue has caught up with e, or e reached the bound. */
  lemma SeedCount(e: int, left: int, numTestEdges: int)
    requires 0 <= e <= left + 1 && (numTestEdges >= 0 ==> e <= numTestEdges) && (numTestEdges < 0 ==> e == 0)
    requires !(e < left && e < numTestEdges)
    ensures e == Min(if numTestEdges < 0 then 0 else numTestEdges, (left + e + 1) / 2)
  {
  }

  /** The seeds taken out so far come in order of non-decreasing dist. */
  predicate SortedByDist(order: seq<EdgeMatch>) {
    forall i, j :: 0 <= i < j < |order| ==> order[i].dist <= order[j].dist
  }

  /** No seed taken out has a larger dist than a seed still queued. */
  predicate NoneLarger(order: seq<EdgeMatch>, queue: seq<EdgeMatch>) {
    forall m, r :: m in order && r in queue ==> m.dist <= r.dist
  }

  /** Appending the popped seed keeps both orderings. */
  lemma PopKeepsOrder(order: seq<EdgeMatch>, queue: seq<EdgeMatch>, m: EdgeMatch, rest: seq<EdgeMatch>)
    requires SortedByDist(order) && NoneLarger(order, queue) && m in queue
    requires forall r :: r in rest ==> r in queue && m.dist <= r.dist
    ensures SortedByDist(order + [m]) && NoneLarger(order + [m], rest)
  {
    forall i | 0 <= i < |order|
      ensures order[i].dist <= m.dist
    {
      assert order[i] in order;
    }
  }

  /** The seeds taken out and those still queued are together the seeds pushed. */
  predicate Splits(seeds: seq<EdgeMatch>, order: seq<EdgeMatch>, queue: seq<EdgeMatch>) {
    multiset(queue) + multiset(order) == multiset(seeds)
  }

  lemma PopKeepsSplit(seeds: seq<EdgeMatch>, order: seq<EdgeMatch>, queue: seq<EdgeMatch>, m: EdgeMatch, rest: seq<EdgeMatch>)
    requires Splits(seeds, order, queue) && multiset(rest) + multiset{m} == multiset(queue)
    ensures Splits(seeds, order + [m], rest)
  {
    assert multiset(order + [m]) == multiset(order) + multiset{m};
  }

  /** What the split and the orderings say once the loop is done. */
  lemma SplitMeaning(seeds: seq<EdgeMatch>, order: seq<EdgeMatch>, queue: seq<EdgeMatch>)
    requires Splits(seeds, order, queue) && SortedByDist(order) && NoneLarger(order, queue)
    ensures multiset(order) <= multiset(seeds)
    ensures forall m: EdgeMatch, r: EdgeMatch :: m in order && r in multiset(seeds) - multiset(order) ==> m.dist <= r.dist
  {
    assert multiset(seeds) - multiset(order) == multiset(queue);
    forall m, r | m in order && r in multiset(seeds) - multiset(order)
      ensures m.dist <= r.dist
    {
      assert r in queue;
    }
  }

  /**
   * The seeds the search works on: the loop calls top() and pop() once per
   * iteration while e also grows, so it ends after min(numTestEdges, ceil(S/2))
   * seeds of the S pushed, each time with one of the smallest remaining.
   */
  method SeedOrder(seeds: seq<EdgeMatch>, numTestEdges: int) returns (order: seq<EdgeMatch>)
    ensures |order| == Min(if numTestEdges < 0 then 0 else numTestEdges, (|seeds| + 1) / 2)
    ensures multiset(order) <= multiset(seeds)
    ensures forall i, j :: 0 <= i < j < |order| ==> order[i].dist <= order[j].dist
    ensures forall m: EdgeMatch, r: EdgeMatch :: m in order && r in multiset(seeds) - multiset(order) ==> m.dist <= r.dist
  {
    var queue := seeds;
    order := [];
    var e := 0;
    assert Splits(seeds, order, queue);
    while e < |queue| && e < numTestEdges
      invariant |order| == e && |queue| + e == |seeds|
      invariant 0 <= e <= |queue| + 1 && (numTestEdges >= 0 ==> e <= numTestEdges) && (numTestEdges < 0 ==> e == 0)
      invariant Splits(seeds, order, queue) && SortedByDist(order) && NoneLarger(order, queue)
    {
      var m, rest := Pop(queue);
      PopKeepsOrder(order, queue, m, rest);
      PopKeepsSplit(seeds, order, queue, m, rest);
      order := order + [m];
      queue := rest;
      e := e + 1;
    }
    SeedCount(e, |queue|, numTestEdges);
    SplitMeaning(seeds, order, queue);
  }
}
