/**
 * The residual-edge model: one arc of the flow network, its residual
 * capacity, the coupling between an arc and its paired reverse arc, and the
 * flow sums that express conservation, flow value and cut capacities.
 */
module Residual {

  /**
   * An arc of the network (the `Edge` class). `forward` is `forwardEdge`,
   * `saved` marks an arc already appended to the answer list, and `other` is
   * the index of the paired arc in the arc arena, or NoPair where the source
   * keeps a null `otherDir`.
   */
  datatype Arc = Arc(from: int, to: int, capacity: int, flow: int,
                     forward: bool, saved: bool, other: int)

  const NoPair := -1

  /**
   * The residual capacity of an arc (`getResCap`): positive exactly when the
   * arc carries less than its capacity.
   */
  function ResCap(e: Arc): (r: int)
    ensures r > 0 <==> e.flow < e.capacity
  {
    e.capacity - e.flow
  }

  /** Two arcs that differ at most in their flow and their saved flag. */
  predicate SameShape(e: Arc, f: Arc)
  {
    e.from == f.from && e.to == f.to && e.capacity == f.capacity &&
    e.forward == f.forward && e.other == f.other
  }

  /**
   * The pairing between arcs is symmetric: an arc and its paired arc run
   * between the same two vertices in opposite directions, exactly one of them
   * is a forward arc, and an arc without a pair is a forward arc.
   */
  ghost predicate PairedAt(a: seq<Arc>, i: int)
    requires 0 <= i < |a|
  {
    var o := a[i].other;
    if o == NoPair then a[i].forward
    else 0 <= o < |a| && a[o].other == i && a[o].from == a[i].to &&
         a[o].to == a[i].from && a[o].forward != a[i].forward
  }

  ghost predicate Paired(a: seq<Arc>)
  {
    forall i :: 0 <= i < |a| ==> PairedAt(a, i)
  }

  /**
   * An arc carries a flow between 0 and its capacity (so its residual
   * capacity is never negative), and an arc and its paired arc carry flows
   * that add up to 1.
   */
  ghost predicate FlowOKAt(a: seq<Arc>, i: int)
    requires 0 <= i < |a|
  {
    0 <= a[i].flow <= a[i].capacity &&
    (0 <= a[i].other < |a| ==> a[i].flow + a[a[i].other].flow == 1)
  }

  ghost predicate FlowsOK(a: seq<Arc>)
  {
    forall i :: 0 <= i < |a| ==> FlowOKAt(a, i)
  }

  lemma ResidualInRange(a: seq<Arc>, i: int)
    requires FlowsOK(a) && 0 <= i < |a|
    ensures 0 <= ResCap(a[i]) <= a[i].capacity
  {
    assert FlowOKAt(a, i);
  }

  /**
   * One push of `m` units on arc `id`: the arc gains `m` and its paired arc,
   * when it has one, loses `m` (the body of the inner loop of `maxFlow`).
   */
  ghost function Push(a: seq<Arc>, id: int, m: int): (r: seq<Arc>)
    requires 0 <= id < |a| && (a[id].other == NoPair || 0 <= a[id].other < |a|)
    ensures |r| == |a|
    ensures forall i :: 0 <= i < |a| ==> SameShape(r[i], a[i]) && r[i].saved == a[i].saved
    ensures forall i :: 0 <= i < |a| && i != id && i != a[id].other ==> r[i] == a[i]
  {
    var e := a[id];
    var a1 := a[id := e.(flow := e.flow + m)];
    if e.other == NoPair then a1
    else a1[e.other := a1[e.other].(flow := a1[e.other].flow - m)]
  }

  function Ind(b: bool): int
  {
    if b then 1 else 0
  }

  /**
   * The net inflow that a flow of value f from s to t gives the vertex set
   * S: f when S holds t but not s, -f when it holds s but not t, else 0.
   */
  function Across(f: int, S: set<int>, s: int, t: int): int
  {
    (if t in S then f else 0) - (if s in S then f else 0)
  }

  /**
   * The arcs carry a flow of value f from s to t: every vertex set has the
   * net inflow that `Across` gives it.
   */
  ghost predicate FlowValue(a: seq<Arc>, f: int, s: int, t: int)
  {
    forall S :: Sum(a, Net(S)) == Across(f, S, s, t)
  }

  /**
   * Sums over the forward arcs, for a vertex set S:
   *  - Net(S): flow on forward arcs entering S minus flow on those leaving S
   *    (for S = {v} the net inflow of v, whose being 0 is flow conservation);
   *  - Leaving(S) / Entering(S): the number of forward arcs leaving / entering
   *    S, i.e. the capacity of the cut, since every arc has capacity 1.
   */
  datatype Measure = Net(S: set<int>) | Leaving(S: set<int>) | Entering(S: set<int>)

  function Weight(e: Arc, w: Measure): int
  {
    if !e.forward then 0
    else match w
      case Net(S) => (if e.to in S then e.flow else 0) - (if e.from in S then e.flow else 0)
      case Leaving(S) => Ind(e.from in S && e.to !in S)
      case Entering(S) => Ind(e.to in S && e.from !in S)
  }

  /** The sum of the weights of the first n arcs. */
  function SumTo(a: seq<Arc>, n: int, w: Measure): int
    requires 0 <= n <= |a|
  {
    if n == 0 then 0 else SumTo(a, n - 1, w) + Weight(a[n - 1], w)
  }

  function Sum(a: seq<Arc>, w: Measure): int
  {
    SumTo(a, |a|, w)
  }

  /** Replacing one arc changes a sum by the difference of its weights. */
  lemma {:induction false} SumUpdate(a: seq<Arc>, i: int, e: Arc, w: Measure)
    requires 0 <= i < |a|
    ensures Sum(a[i := e], w) == Sum(a, w) - Weight(a[i], w) + Weight(e, w)
  {
    SumToUpdate(a, i, e, w, |a|);
  }

  lemma {:induction false} SumToUpdate(a: seq<Arc>, i: int, e: Arc, w: Measure, n: int)
    requires 0 <= i < |a| && 0 <= n <= |a|
    ensures SumTo(a[i := e], n, w) ==
            SumTo(a, n, w) + (if i < n then Weight(e, w) - Weight(a[i], w) else 0)
  {
    if n > 0 {
      SumToUpdate(a, i, e, w, n - 1);
    }
  }

  /** Sums over two arc sequences whose weights agree index by index. */
  lemma {:induction false} SumAgree(a: seq<Arc>, b: seq<Arc>, w1: Measure, w2: Measure)
    requires |a| == |b|
    requires forall i :: 0 <= i < |a| ==> Weight(a[i], w1) == Weight(b[i], w2)
    ensures Sum(a, w1) == Sum(b, w2)
  {
    SumToAgree(a, b, w1, w2, |a|);
  }

  lemma {:induction false} SumToAgree(a: seq<Arc>, b: seq<Arc>, w1: Measure, w2: Measure, n: int)
    requires |a| == |b| && 0 <= n <= |a|
    requires forall i :: 0 <= i < |a| ==> Weight(a[i], w1) == Weight(b[i], w2)
    ensures SumTo(a, n, w1) == SumTo(b, n, w2)
  {
    if n > 0 {
      SumToAgree(a, b, w1, w2, n - 1);
    }
  }

  /** A sum whose weights are 1 exactly on the indices lo..hi-1 counts them. */
  lemma {:induction false} SumRange(a: seq<Arc>, w: Measure, lo: int, hi: int)
    requires 0 <= lo <= hi <= |a|
    requires forall i :: 0 <= i < |a| ==> Weight(a[i], w) == Ind(lo <= i < hi)
    ensures Sum(a, w) == hi - lo
  {
    SumToRange(a, w, lo, hi, |a|);
  }

  lemma {:induction false} SumToRange(a: seq<Arc>, w: Measure, lo: int, hi: int, n: int)
    requires 0 <= lo <= hi <= |a| && 0 <= n <= |a|
    requires forall i :: 0 <= i < |a| ==> Weight(a[i], w) == Ind(lo <= i < hi)
    ensures SumTo(a, n, w) == if n <= lo then 0 else if n <= hi then n - lo else hi - lo
  {
    if n > 0 {
      SumToRange(a, w, lo, hi, n - 1);
    }
  }

  /** Sums whose weights are opposite index by index are opposite. */
  lemma {:induction false} SumOpposite(a: seq<Arc>, w1: Measure, w2: Measure)
    requires forall i :: 0 <= i < |a| ==> Weight(a[i], w1) == -Weight(a[i], w2)
    ensures Sum(a, w1) == -Sum(a, w2)
  {
    SumToOpposite(a, w1, w2, |a|);
  }

  lemma {:induction false} SumToOpposite(a: seq<Arc>, w1: Measure, w2: Measure, n: int)
    requires 0 <= n <= |a|
    requires forall i :: 0 <= i < |a| ==> Weight(a[i], w1) == -Weight(a[i], w2)
    ensures SumTo(a, n, w1) == -SumTo(a, n, w2)
  {
    if n > 0 {
      SumToOpposite(a, w1, w2, n - 1);
    }
  }

  /** A sum whose weights are 1 exactly on the arcs of T counts T. */
  lemma SumCount(a: seq<Arc>, w: Measure, T: set<int>)
    requires forall i :: 0 <= i < |a| ==> Weight(a[i], w) == Ind(i in T)
    requires forall i :: i in T ==> 0 <= i < |a|
    ensures Sum(a, w) == |T|
  {
    SumToCount(a, w, T, |a|);
    assert T == set i | i in T && i < |a|;
  }

  lemma {:induction false} SumToCount(a: seq<Arc>, w: Measure, T: set<int>, n: int)
    requires forall i :: 0 <= i < |a| ==> Weight(a[i], w) == Ind(i in T)
    requires forall i :: i in T ==> 0 <= i < |a|
    requires 0 <= n <= |a|
    ensures SumTo(a, n, w) == |set i | i in T && i < n|
  {
    var B := set i | i in T && i < n;
    if n == 0 {
      assert B == {};
    } else {
      SumToCount(a, w, T, n - 1);
      var A := set i | i in T && i < n - 1;
      if n - 1 in T {
        assert B == A + {n - 1};
      } else {
        assert B == A;
      }
    }
  }

  /**
   * Pushing `m` on arc `id` moves `m` units of net flow from the arc's tail to
   * its head, whether the arc is a forward arc (its own flow grows) or a
   * reverse arc (the flow of its forward partner shrinks).
   */
  lemma PushNet(a: seq<Arc>, id: int, m: int, S: set<int>)
    requires 0 <= id < |a| && PairedAt(a, id)
    ensures Sum(Push(a, id, m), Net(S)) ==
            Sum(a, Net(S)) + (if a[id].to in S then m else 0) - (if a[id].from in S then m else 0)
  {
    var e := a[id];
    var a1 := a[id := e.(flow := e.flow + m)];
    if e.other == NoPair {
      assert Push(a, id, m) == a1;
      SumUpdate(a, id, e.(flow := e.flow + m), Net(S));
    } else {
      var o := e.other;
      var a2 := a1[o := a1[o].(flow := a1[o].flow - m)];
      assert Push(a, id, m) == a2;
      assert a1[o] == a[o];
      SumUpdate(a, id, e.(flow := e.flow + m), Net(S));
      SumUpdate(a1, o, a[o].(flow := a[o].flow - m), Net(S));
    }
  }

  /**
   * With flows between 0 and 1, the net inflow of S lies between minus the
   * number of forward arcs leaving S and the number of forward arcs entering S.
   */
  lemma NetBounds(a: seq<Arc>, S: set<int>)
    requires forall i :: 0 <= i < |a| ==> 0 <= a[i].flow <= 1
    ensures -Sum(a, Leaving(S)) <= Sum(a, Net(S)) <= Sum(a, Entering(S))
  {
    NetBoundsTo(a, S, |a|);
  }

  lemma {:induction false} NetBoundsTo(a: seq<Arc>, S: set<int>, n: int)
    requires forall i :: 0 <= i < |a| ==> 0 <= a[i].flow <= 1
    requires 0 <= n <= |a|
    ensures -SumTo(a, n, Leaving(S)) <= SumTo(a, n, Net(S)) <= SumTo(a, n, Entering(S))
  {
    if n > 0 {
      NetBoundsTo(a, S, n - 1);
    }
  }

  /**
   * Forward arcs i and j (possibly the same) leaving S lower the net inflow
   * of S by their flows below the number of forward arcs entering S.
   */
  lemma NetTwoLeaving(a: seq<Arc>, S: set<int>, i: int, j: int)
    requires forall k :: 0 <= k < |a| ==> 0 <= a[k].flow <= 1
    requires 0 <= i < |a| && 0 <= j < |a| && i != j
    requires a[i].forward && a[i].from in S && a[i].to !in S
    requires a[j].forward && a[j].from in S && a[j].to !in S
    ensures Sum(a, Net(S)) <= Sum(a, Entering(S)) - a[i].flow - a[j].flow
  {
    NetTwoLeavingTo(a, S, i, j, |a|);
  }

  lemma {:induction false} NetTwoLeavingTo(a: seq<Arc>, S: set<int>, i: int, j: int, n: int)
    requires forall k :: 0 <= k < |a| ==> 0 <= a[k].flow <= 1
    requires 0 <= i < |a| && 0 <= j < |a| && i != j && 0 <= n <= |a|
    requires a[i].forward && a[i].from in S && a[i].to !in S
    requires a[j].forward && a[j].from in S && a[j].to !in S
    ensures SumTo(a, n, Net(S)) <= SumTo(a, n, Entering(S)) -
              (if i < n then a[i].flow else 0) - (if j < n then a[j].flow else 0)
  {
    if n > 0 {
      NetTwoLeavingTo(a, S, i, j, n - 1);
    }
  }

  /**
   * Forward arcs i and j entering S raise the net inflow of S by their flows
   * above minus the number of forward arcs leaving S.
   */
  lemma NetTwoEntering(a: seq<Arc>, S: set<int>, i: int, j: int)
    requires forall k :: 0 <= k < |a| ==> 0 <= a[k].flow <= 1
    requires 0 <= i < |a| && 0 <= j < |a| && i != j
    requires a[i].forward && a[i].to in S && a[i].from !in S
    requires a[j].forward && a[j].to in S && a[j].from !in S
    ensures Sum(a, Net(S)) >= a[i].flow + a[j].flow - Sum(a, Leaving(S))
  {
    NetTwoEnteringTo(a, S, i, j, |a|);
  }

  lemma {:induction false} NetTwoEnteringTo(a: seq<Arc>, S: set<int>, i: int, j: int, n: int)
    requires forall k :: 0 <= k < |a| ==> 0 <= a[k].flow <= 1
    requires 0 <= i < |a| && 0 <= j < |a| && i != j && 0 <= n <= |a|
    requires a[i].forward && a[i].to in S && a[i].from !in S
    requires a[j].forward && a[j].to in S && a[j].from !in S
    ensures SumTo(a, n, Net(S)) >= (if i < n then a[i].flow else 0) +
              (if j < n then a[j].flow else 0) - SumTo(a, n, Leaving(S))
  {
    if n > 0 {
      NetTwoEnteringTo(a, S, i, j, n - 1);
    }
  }

  /**
   * Pushing m more units from s to t onto a flow of value f gives a flow of
   * value f + m: the step `max_flow += m` of `maxFlow()`, stated on its own so
   * that the main loop reasons about `FlowValue` without unfolding it.
   */
  lemma FlowValueAdds(A: seq<Arc>, a: seq<Arc>, f: int, m: int, s: int, t: int)
    requires FlowValue(A, f, s, t)
    requires forall S :: Sum(a, Net(S)) == Sum(A, Net(S)) + Across(m, S, s, t)
    ensures FlowValue(a, f + m, s, t)
  {
  }
}
