/**
 * The flow network that `solve()` builds from the input pairs: vertex
 * numbering, the arc created with each id, and the adjacency lists.
 *
 * Vertices run from 0 to x+y+2: left vertices 1..x, right vertices
 * x+1..x+y, the source x+y+1 and the sink x+y+2 (vertex 0 is never used).
 * Arc ids follow the order in which the source creates its edges: input pair
 * i gives the forward arc 2i and its reverse arc 2i+1; then come the arcs
 * from the source to each left vertex, then the arcs from each right vertex
 * to the sink, so that the source or sink arc of vertex u has id 2e+u-1,
 * where e is the number of pairs.
 */
module Layout {
  import opened Residual

  function VertexCount(x: int, y: int): int { x + y + 3 }

  function Source(x: int, y: int): int { x + y + 1 }

  function Sink(x: int, y: int): int { x + y + 2 }

  /**
   * Input pairs as the construction uses them: each pair joins a left vertex
   * to a right vertex, the right vertex already numbered in x+1..x+y.
   */
  predicate ValidInput(x: int, y: int, pairs: seq<(int, int)>)
  {
    0 <= x && 0 <= y &&
    forall i :: 0 <= i < |pairs| ==> 1 <= pairs[i].0 <= x && x + 1 <= pairs[i].1 <= x + y
  }

  function ArcCount(x: int, y: int, pairs: seq<(int, int)>): int
  {
    2 * |pairs| + x + y
  }

  /**
   * The arc with id j as the construction creates it: capacity 1 and not
   * saved; forward arcs start with flow 0 and reverse arcs with flow 1; only
   * the arcs of input pairs are paired, and of those the even ids are the
   * forward ones.
   */
  function InitialArc(x: int, y: int, pairs: seq<(int, int)>, j: int): (r: Arc)
    requires 0 <= j < ArcCount(x, y, pairs)
    ensures r.capacity == 1 && !r.saved
    ensures r.flow == if r.forward then 0 else 1
    ensures r.other == NoPair <==> j >= 2 * |pairs|
    ensures r.forward <==> j >= 2 * |pairs| || j % 2 == 0
  {
    var e := |pairs|;
    if j < 2 * e then
      var (a, b) := pairs[j / 2];
      if j % 2 == 0 then Arc(a, b, 1, 0, true, false, j + 1)
      else Arc(b, a, 1, 1, false, false, j - 1)
    else if j < 2 * e + x then Arc(Source(x, y), j - 2 * e + 1, 1, 0, true, false, NoPair)
    else Arc(j - 2 * e + 1, Sink(x, y), 1, 0, true, false, NoPair)
  }

  /** The arcs exactly as the construction leaves them. */
  ghost predicate Initial(a: seq<Arc>, x: int, y: int, pairs: seq<(int, int)>)
  {
    |a| == ArcCount(x, y, pairs) &&
    forall j :: 0 <= j < |a| ==> a[j] == InitialArc(x, y, pairs, j)
  }

  /**
   * The arcs as the construction lays them out, whatever their flows and
   * saved flags have since become.
   */
  ghost predicate Shaped(a: seq<Arc>, x: int, y: int, pairs: seq<(int, int)>)
  {
    |a| == ArcCount(x, y, pairs) &&
    forall j :: 0 <= j < |a| ==> ShapedAt(a, x, y, pairs, j)
  }

  /** Arc j keeps the endpoints, capacity, direction and pairing it was created with. */
  ghost predicate ShapedAt(a: seq<Arc>, x: int, y: int, pairs: seq<(int, int)>, j: int)
  {
    0 <= j < |a| && j < ArcCount(x, y, pairs) && SameShape(a[j], InitialArc(x, y, pairs, j))
  }

  /** The ids below n of the arcs leaving u, in creation order. */
  function ArcsFrom(a: seq<Arc>, u: int, n: int): seq<int>
    requires 0 <= n <= |a|
  {
    if n == 0 then []
    else ArcsFrom(a, u, n - 1) + (if a[n - 1].from == u then [n - 1] else [])
  }

  /** The adjacency list of u lists exactly the arcs leaving u, each once, in creation order. */
  lemma {:induction false} ArcsFromMembers(a: seq<Arc>, u: int, n: int)
    requires 0 <= n <= |a|
    ensures forall i :: i in ArcsFrom(a, u, n) <==> 0 <= i < n && a[i].from == u
    ensures forall k, l :: 0 <= k < l < |ArcsFrom(a, u, n)| ==>
              ArcsFrom(a, u, n)[k] < ArcsFrom(a, u, n)[l]
  {
    if n > 0 {
      ArcsFromMembers(a, u, n - 1);
      var s := ArcsFrom(a, u, n - 1);
      forall k | 0 <= k < |s| ensures s[k] < n - 1 {
        assert s[k] in s;
      }
    }
  }

  /**
   * The adjacency lists g agree with the arcs: every listed id is an arc
   * leaving the vertex it is listed under, and every arc is listed under the
   * vertex it leaves.
   */
  ghost predicate Listed(g: seq<seq<int>>, a: seq<Arc>)
  {
    (forall u, k :: 0 <= u < |g| && 0 <= k < |g[u]| ==>
       0 <= g[u][k] < |a| && a[g[u][k]].from == u) &&
    (forall i :: 0 <= i < |a| ==> ListedAt(g, a, i))
  }

  /** Arc i is listed under the vertex it leaves. */
  ghost predicate ListedAt(g: seq<seq<int>>, a: seq<Arc>, i: int)
  {
    0 <= i < |a| && 0 <= a[i].from < |g| && i in g[a[i].from]
  }

  lemma ListedByCreation(g: seq<seq<int>>, a: seq<Arc>)
    requires forall u :: 0 <= u < |g| ==> g[u] == ArcsFrom(a, u, |a|)
    requires forall i :: 0 <= i < |a| ==> 0 <= a[i].from < |g|
    ensures Listed(g, a)
  {
    forall u, k | 0 <= u < |g| && 0 <= k < |g[u]|
      ensures 0 <= g[u][k] < |a| && a[g[u][k]].from == u
    {
      ArcsFromMembers(a, u, |a|);
      assert g[u][k] in ArcsFrom(a, u, |a|);
    }
    forall i | 0 <= i < |a|
      ensures ListedAt(g, a, i)
    {
      ArcsFromMembers(a, a[i].from, |a|);
    }
  }

  /**
   * The structure of the built network: the pairing is symmetric, every arc
   * has capacity 1 and joins two vertices in 1..x+y+2, no arc enters the
   * source and none leaves the sink, and forward arcs run from the source to
   * the left side, from the left side to the right side, or from the right
   * side to the sink.
   */
  lemma ShapedStructure(a: seq<Arc>, x: int, y: int, pairs: seq<(int, int)>)
    requires ValidInput(x, y, pairs) && Shaped(a, x, y, pairs)
    ensures Paired(a)
    ensures forall i :: 0 <= i < |a| ==>
      a[i].capacity == 1 && 1 <= a[i].from < VertexCount(x, y) && 1 <= a[i].to < VertexCount(x, y) &&
      a[i].to != Source(x, y) && a[i].from != Sink(x, y)
    ensures forall i :: 0 <= i < |a| && a[i].forward ==>
      (a[i].from == Source(x, y) && 1 <= a[i].to <= x) ||
      (1 <= a[i].from <= x && x + 1 <= a[i].to <= x + y) ||
      (x + 1 <= a[i].from <= x + y && a[i].to == Sink(x, y))
    ensures forall i :: 0 <= i < |a| && !a[i].forward ==>
      x + 1 <= a[i].from <= x + y && 1 <= a[i].to <= x
  {
    forall i | 0 <= i < |a|
      ensures PairedAt(a, i)
    {
      assert ShapedAt(a, x, y, pairs, i);
      if a[i].other != NoPair {
        assert ShapedAt(a, x, y, pairs, a[i].other);
      }
    }
    forall i | 0 <= i < |a|
      ensures a[i].capacity == 1 && 1 <= a[i].from < VertexCount(x, y) && 1 <= a[i].to < VertexCount(x, y)
      ensures a[i].to != Source(x, y) && a[i].from != Sink(x, y)
      ensures a[i].forward ==>
        (a[i].from == Source(x, y) && 1 <= a[i].to <= x) ||
        (1 <= a[i].from <= x && x + 1 <= a[i].to <= x + y) ||
        (x + 1 <= a[i].from <= x + y && a[i].to == Sink(x, y))
      ensures !a[i].forward ==> x + 1 <= a[i].from <= x + y && 1 <= a[i].to <= x
    {
      assert ShapedAt(a, x, y, pairs, i);
    }
  }

  /**
   * The built network has exactly x arcs leaving the source, exactly y arcs
   * entering the sink, one arc entering each left vertex and one arc leaving
   * each right vertex.
   */
  lemma ShapedDegrees(a: seq<Arc>, x: int, y: int, pairs: seq<(int, int)>)
    requires ValidInput(x, y, pairs) && Shaped(a, x, y, pairs)
    ensures Sum(a, Leaving({Source(x, y)})) == x
    ensures Sum(a, Entering({Sink(x, y)})) == y
    ensures forall u :: 1 <= u <= x ==> Sum(a, Entering({u})) == 1
    ensures forall u :: x + 1 <= u <= x + y ==> Sum(a, Leaving({u})) == 1
  {
    var e := |pairs|;
    forall i | 0 <= i < |a| ensures SameShape(a[i], InitialArc(x, y, pairs, i)) {
      assert ShapedAt(a, x, y, pairs, i);
    }
    SumRange(a, Leaving({Source(x, y)}), 2 * e, 2 * e + x);
    SumRange(a, Entering({Sink(x, y)}), 2 * e + x, 2 * e + x + y);
    forall u | 1 <= u <= x
      ensures Sum(a, Entering({u})) == 1
    {
      SumRange(a, Entering({u}), 2 * e + u - 1, 2 * e + u);
    }
    forall u | x + 1 <= u <= x + y
      ensures Sum(a, Leaving({u})) == 1
    {
      SumRange(a, Leaving({u}), 2 * e + u - 1, 2 * e + u);
    }
  }

  /**
   * Right after construction every flow is within its capacity, every pair
   * of flows sums to 1 (the reverse arc starts with flow 1 and so residual
   * capacity 0), no arc is saved, and every vertex set has net inflow 0.
   */
  lemma InitialFlows(a: seq<Arc>, x: int, y: int, pairs: seq<(int, int)>)
    requires ValidInput(x, y, pairs) && Initial(a, x, y, pairs)
    ensures Shaped(a, x, y, pairs)
    ensures FlowsOK(a)
    ensures forall i :: 0 <= i < |a| ==> !a[i].saved
    ensures forall i :: 0 <= i < |a| && !a[i].forward ==> ResCap(a[i]) == 0
    ensures forall S :: Sum(a, Net(S)) == 0
  {
    forall i | 0 <= i < |a|
      ensures FlowOKAt(a, i)
    {
      assert a[i] == InitialArc(x, y, pairs, i);
      if 0 <= a[i].other < |a| {
        assert a[a[i].other] == InitialArc(x, y, pairs, a[i].other);
      }
    }
    forall S {
      SumRange(a, Net(S), 0, 0);
    }
  }
}
