/**
 * The seed record of the template search and the ordering of its priority
 * queue (src/markerTracking/MarkerTracking.h): a world edge (a, b) matched
 * with a template edge (x, y), whose length difference is dist.
 */
module EdgeMatches {

  datatype EdgeMatch = EdgeMatch(dist: real, a: int, b: int, x: int, y: int)

  /**
   * edge_match_comp: lhs has lower priority than rhs when its length
   * difference is larger, so the top of std::priority_queue has the smallest.
   */
  predicate EdgeMatchComp(lhs: EdgeMatch, rhs: EdgeMatch) {
    lhs.dist > rhs.dist
  }

  /** The comparator is a strict weak ordering, as std::priority_queue requires. */
  lemma ComparatorIsStrictWeakOrder(p: EdgeMatch, q: EdgeMatch, r: EdgeMatch)
    ensures !EdgeMatchComp(p, p)
    ensures EdgeMatchComp(p, q) ==> !EdgeMatchComp(q, p)
    ensures EdgeMatchComp(p, q) && EdgeMatchComp(q, r) ==> EdgeMatchComp(p, r)
    ensures !EdgeMatchComp(p, q) && !EdgeMatchComp(q, p) <==> p.dist == q.dist
  {
  }

  /**
   * An element that outranks no other one can be top(): std::priority_queue
   * returns one of these (which one, among equal distances, it does not say).
   */
  predicate IsTop(queue: seq<EdgeMatch>, i: int) {
    0 <= i < |queue| && forall j :: 0 <= j < |queue| ==> !EdgeMatchComp(queue[i], queue[j])
  }

  /** The top has the smallest length difference of the queue. */
  lemma TopIsSmallest(queue: seq<EdgeMatch>, i: int)
    requires 0 <= i < |queue|
    ensures IsTop(queue, i) <==> forall j :: 0 <= j < |queue| ==> queue[i].dist <= queue[j].dist
  {
  }

  /** A non-empty queue has a top. */
  lemma {:induction false} TopExists(queue: seq<EdgeMatch>) returns (i: int)
    requires queue != []
    ensures IsTop(queue, i)
  {
    if |queue| == 1 {
      i := 0;
    } else {
      var rest := queue[1..];
      var k := TopExists(rest);
      if queue[0].dist <= rest[k].dist {
        i := 0;
        forall j | 0 <= j < |queue|
          ensures queue[0].dist <= queue[j].dist
        {
          if j > 0 {
            assert queue[j] == rest[j - 1];
          }
        }
      } else {
        i := k + 1;
        forall j | 0 <= j < |queue|
          ensures queue[i].dist <= queue[j].dist
        {
          if j > 0 {
            assert queue[j] == rest[j - 1];
          }
        }
      }
    }
  }
}
