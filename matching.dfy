/**
 * What `solve()` computes: the arcs between a left and a right vertex that
 * carry flow once `maxFlow()` stops form a maximum matching of the input
 * pairs, and their number k is the flow value.
 */
module Matching {
  import opened Residual
  import opened Layout
  import opened Paths
  import opened Augmenting
  import opened FlowNetwork

  /**
   * N is a matching of the input: every matched pair is an input pair, and
   * no left vertex and no right vertex is matched twice.
   */
  ghost predicate IsMatching(pairs: seq<(int, int)>, N: seq<(int, int)>)
  {
    (forall k :: 0 <= k < |N| ==> N[k] in pairs) &&
    (forall k, l :: 0 <= k < l < |N| ==> N[k].0 != N[l].0 && N[k].1 != N[l].1)
  }

  /** The right vertices and the sink. */
  predicate SinkSide(x: int, y: int, w: int)
  {
    x + 1 <= w <= x + y || w == Sink(x, y)
  }

  /** A sequence with no element twice has as many distinct elements as it is long. */
  lemma {:induction false} DistinctCard(c: seq<int>)
    requires forall k, l :: 0 <= k < l < |c| ==> c[k] != c[l]
    ensures |set i | i in c| == |c|
  {
    if c != [] {
      var n := |c| - 1;
      DistinctCard(c[..n]);
      assert (set i | i in c) == (set i | i in c[..n]) + {c[n]};
      assert c[n] !in c[..n];
    }
  }

  /** A subset has at most as many elements as the set that holds it. */
  lemma SubsetCard(A: set<int>, B: set<int>)
    requires A <= B
    ensures |A| <= |B|
  {
    assert B == A + (B - A);
    assert A * (B - A) == {};
  }

  /** On a network of the built shape, every flow is 0 or 1 and every capacity 1. */
  lemma UnitFlows(a: seq<Arc>, x: int, y: int, pairs: seq<(int, int)>)
    requires ValidInput(x, y, pairs) && Shaped(a, x, y, pairs) && FlowsOK(a)
    ensures forall i :: 0 <= i < |a| ==> a[i].capacity == 1 && 0 <= a[i].flow <= 1
  {
    ShapedStructure(a, x, y, pairs);
    forall i | 0 <= i < |a| ensures 0 <= a[i].flow <= 1 {
      assert FlowOKAt(a, i);
    }
  }

  /**
   * An arc between a left and a right vertex is the forward arc 2k of input
   * pair k, and joins the two vertices of that pair.
   */
  lemma PairingArc(a: seq<Arc>, x: int, y: int, pairs: seq<(int, int)>, i: int)
    requires ValidInput(x, y, pairs) && Shaped(a, x, y, pairs)
    requires 0 <= i < |a| && IsPairing(a[i], Source(x, y), Sink(x, y))
    ensures i < 2 * |pairs| && i % 2 == 0
    ensures (a[i].from, a[i].to) == pairs[i / 2]
    ensures 1 <= a[i].from <= x && x + 1 <= a[i].to <= x + y
  {
    assert ShapedAt(a, x, y, pairs, i);
  }

  /**
   * Flow conservation at the left and right vertices: two different arcs
   * between a left and a right vertex that both carry flow share neither
   * their left vertex (it has one unit of inflow) nor their right vertex (it
   * has one unit of outflow).
   */
  lemma AtMostOneEach(a: seq<Arc>, x: int, y: int, pairs: seq<(int, int)>, f: int, i: int, j: int)
    requires ValidInput(x, y, pairs) && Shaped(a, x, y, pairs) && FlowsOK(a)
    requires FlowValue(a, f, Source(x, y), Sink(x, y))
    requires 0 <= i < |a| && 0 <= j < |a| && i != j
    requires IsPairing(a[i], Source(x, y), Sink(x, y)) && a[i].flow > 0
    requires IsPairing(a[j], Source(x, y), Sink(x, y)) && a[j].flow > 0
    ensures a[i].from != a[j].from && a[i].to != a[j].to
  {
    UnitFlows(a, x, y, pairs);
    PairingArc(a, x, y, pairs, i);
    PairingArc(a, x, y, pairs, j);
    ShapedDegrees(a, x, y, pairs);
    if a[i].from == a[j].from {
      var u := a[i].from;
      assert Sum(a, Net({u})) == 0 && Sum(a, Entering({u})) == 1;
      NetTwoLeaving(a, {u}, i, j);
    }
    if a[i].to == a[j].to {
      var w := a[i].to;
      assert Sum(a, Net({w})) == 0 && Sum(a, Leaving({w})) == 1;
      NetTwoEntering(a, {w}, i, j);
    }
  }

  /** The pairs the count keeps form a matching of the input. */
  lemma MatchingValid(a: seq<Arc>, ans: seq<int>, x: int, y: int, pairs: seq<(int, int)>, f: int)
    requires ValidInput(x, y, pairs) && Shaped(a, x, y, pairs) && FlowsOK(a)
    requires FlowValue(a, f, Source(x, y), Sink(x, y))
    requires AnswerOK(a, ans, Source(x, y), Sink(x, y))
    ensures IsMatching(pairs, Endpoints(a, Carrying(a, ans)))
  {
    var s, t := Source(x, y), Sink(x, y);
    var c := Carrying(a, ans);
    var N := Endpoints(a, c);
    CarryingExactly(a, ans);
    forall k | 0 <= k < |c| ensures IsPairing(a[c[k]], s, t) {
      assert c[k] in c;
      var z :| 0 <= z < |ans| && ans[z] == c[k];
    }
    forall k | 0 <= k < |N| ensures N[k] in pairs {
      PairingArc(a, x, y, pairs, c[k]);
      assert N[k] == pairs[c[k] / 2];
    }
    forall k, l | 0 <= k < l < |N| ensures N[k].0 != N[l].0 && N[k].1 != N[l].1 {
      AtMostOneEach(a, x, y, pairs, f, c[k], c[l]);
    }
  }

  /**
   * The count k equals the flow value: the answer list holds each arc
   * between a left and a right vertex that carries flow exactly once, and
   * these arcs carry the whole flow into the right side.
   */
  lemma MatchingSize(a: seq<Arc>, ans: seq<int>, x: int, y: int, pairs: seq<(int, int)>, f: int)
    requires ValidInput(x, y, pairs) && Shaped(a, x, y, pairs) && FlowsOK(a)
    requires FlowValue(a, f, Source(x, y), Sink(x, y))
    requires AnswerOK(a, ans, Source(x, y), Sink(x, y))
    ensures |Carrying(a, ans)| == f
  {
    var c := Carrying(a, ans);
    var T := Carried(a, Source(x, y), Sink(x, y));
    CarryingIsCarried(a, ans, Source(x, y), Sink(x, y));
    DistinctCard(c);
    CarriedIsFlow(a, x, y, pairs, f);
  }

  /** The arcs between a left and a right vertex that carry flow. */
  ghost function Carried(a: seq<Arc>, s: int, t: int): set<int>
  {
    set i | 0 <= i < |a| && IsPairing(a[i], s, t) && a[i].flow > 0
  }

  /** The answer arcs that carry flow are exactly the carried arcs, none twice. */
  lemma CarryingIsCarried(a: seq<Arc>, ans: seq<int>, s: int, t: int)
    requires AnswerOK(a, ans, s, t)
    ensures (set i | i in Carrying(a, ans)) == Carried(a, s, t)
    ensures forall k, l :: 0 <= k < l < |Carrying(a, ans)| ==> Carrying(a, ans)[k] != Carrying(a, ans)[l]
  {
    var c := Carrying(a, ans);
    CarryingExactly(a, ans);
    forall i | i in c ensures i in Carried(a, s, t) {
      var z :| 0 <= z < |ans| && ans[z] == i;
    }
  }

  /** The carried arcs are as many as the flow value: each carries one unit into the right side. */
  lemma CarriedIsFlow(a: seq<Arc>, x: int, y: int, pairs: seq<(int, int)>, f: int)
    requires ValidInput(x, y, pairs) && Shaped(a, x, y, pairs) && FlowsOK(a)
    requires FlowValue(a, f, Source(x, y), Sink(x, y))
    ensures |Carried(a, Source(x, y), Sink(x, y))| == f
  {
    var T := Carried(a, Source(x, y), Sink(x, y));
    var W := set w | x + 1 <= w <= Sink(x, y) && SinkSide(x, y, w);
    UnitFlows(a, x, y, pairs);
    forall i | 0 <= i < |a| ensures Weight(a[i], Net(W)) == Ind(i in T) {
      assert ShapedAt(a, x, y, pairs, i);
    }
    SumCount(a, Net(W), T);
    assert Sum(a, Net(W)) == f;
  }

  /**
   * Once no augmenting path is left, the closed set R of the vertices the
   * last search reached is a cut: every forward arc leaving R is full and
   * every forward arc entering R is empty, so the net inflow of R is minus
   * the number of arcs leaving it.
   */
  lemma CutSaturated(a: seq<Arc>, x: int, y: int, pairs: seq<(int, int)>, R: set<int>)
    requires ValidInput(x, y, pairs) && Shaped(a, x, y, pairs) && FlowsOK(a)
    requires Separates(a, R, Source(x, y), Sink(x, y))
    ensures Sum(a, Net(R)) == -Sum(a, Leaving(R))
  {
    ShapedStructure(a, x, y, pairs);
    forall i | 0 <= i < |a| ensures Weight(a[i], Net(R)) == -Weight(a[i], Leaving(R)) {
      assert FlowOKAt(a, i) && PairedAt(a, i) && ShapedAt(a, x, y, pairs, i);
      if a[i].forward && a[i].to in R && a[i].from !in R {
        var o := a[i].other;
        assert FlowOKAt(a, o);
      }
    }
    SumOpposite(a, Net(R), Leaving(R));
  }

  /**
   * The vertex of a matched pair (u, w) that a cut R charges it to: the
   * arc from the source to u when u is outside R, else the arc from w to
   * the sink when w is inside R, else the arc of pair (u, w) itself.
   */
  ghost function CutArc(pairs: seq<(int, int)>, R: set<int>, uw: (int, int)): int
    requires uw in pairs
  {
    var e := |pairs|;
    if uw.0 !in R then 2 * e + uw.0 - 1
    else if uw.1 in R then 2 * e + uw.1 - 1
    else var k :| 0 <= k < |pairs| && pairs[k] == uw; 2 * k
  }

  /**
   * The arc a cut charges a matched pair to leaves the cut, and tells which
   * vertex of the pair it was charged for.
   */
  lemma CutArcLeaves(a: seq<Arc>, x: int, y: int, pairs: seq<(int, int)>, R: set<int>, uw: (int, int))
    requires ValidInput(x, y, pairs) && Shaped(a, x, y, pairs) && uw in pairs
    requires Source(x, y) in R && Sink(x, y) !in R
    ensures var i, e := CutArc(pairs, R, uw), |pairs|;
      0 <= i < |a| && Weight(a[i], Leaving(R)) == 1 &&
      (i < 2 * e ==> i % 2 == 0 && pairs[i / 2] == uw) &&
      (2 * e <= i < 2 * e + x ==> i == 2 * e + uw.0 - 1) &&
      (2 * e + x <= i ==> i == 2 * e + uw.1 - 1)
  {
    var i, e := CutArc(pairs, R, uw), |pairs|;
    var k :| 0 <= k < |pairs| && pairs[k] == uw;
    assert 1 <= uw.0 <= x && x + 1 <= uw.1 <= x + y;
    assert ShapedAt(a, x, y, pairs, i);
    if i < 2 * e {
      assert i / 2 * 2 == i;
    }
  }

  /** No matching is larger than the number of forward arcs leaving a set that holds the source but not the sink. */
  lemma CutBound(a: seq<Arc>, x: int, y: int, pairs: seq<(int, int)>, R: set<int>, N: seq<(int, int)>)
    requires ValidInput(x, y, pairs) && Shaped(a, x, y, pairs)
    requires Source(x, y) in R && Sink(x, y) !in R
    requires IsMatching(pairs, N)
    ensures |N| <= Sum(a, Leaving(R))
  {
    var c := seq(|N|, l requires 0 <= l < |N| => CutArc(pairs, R, N[l]));
    var L := set i | 0 <= i < |a| && Weight(a[i], Leaving(R)) == 1;
    forall l | 0 <= l < |c| ensures c[l] in L {
      CutArcLeaves(a, x, y, pairs, R, N[l]);
    }
    forall k, l | 0 <= k < l < |c| ensures c[k] != c[l] {
      CutArcLeaves(a, x, y, pairs, R, N[k]);
      CutArcLeaves(a, x, y, pairs, R, N[l]);
    }
    DistinctCard(c);
    assert (set i | i in c) <= L;
    SubsetCard((set i | i in c), L);
    forall i | 0 <= i < |a| ensures Weight(a[i], Leaving(R)) == Ind(i in L) {
    }
    SumCount(a, Leaving(R), L);
  }

  /**
   * The flow value is at least the size of every matching: it equals the
   * number of arcs leaving the cut R, which bounds every matching.
   */
  lemma MatchingMaximum(a: seq<Arc>, x: int, y: int, pairs: seq<(int, int)>, f: int, R: set<int>)
    requires ValidInput(x, y, pairs) && Shaped(a, x, y, pairs) && FlowsOK(a)
    requires FlowValue(a, f, Source(x, y), Sink(x, y))
    requires Separates(a, R, Source(x, y), Sink(x, y))
    ensures forall N :: IsMatching(pairs, N) ==> |N| <= f
  {
    CutSaturated(a, x, y, pairs, R);
    assert Sum(a, Net(R)) == -f;
    forall N | IsMatching(pairs, N) ensures |N| <= f {
      CutBound(a, x, y, pairs, R, N);
    }
  }

  /**
   * `solve()` without its console I/O: build the network for the input
   * pairs, run `maxFlow()`, and keep the answer arcs that carry flow. The
   * pairs returned form a matching of the input, k is their number, and no
   * matching of the input is larger.
   */
  method Solve(x: int, y: int, pairs: seq<(int, int)>) returns (matching: seq<(int, int)>, k: int)
    requires ValidInput(x, y, pairs)
    ensures IsMatching(pairs, matching) && k == |matching|
    ensures forall N :: IsMatching(pairs, N) ==> |N| <= k
    ensures k <= x && k <= y
  {
    var net := new Network(x, y, pairs);
    net.MaxFlow();
    matching, k := net.Extract();
    var a := net.arcs[..];
    MatchingValid(a, net.answer, x, y, pairs, net.maxFlow);
    MatchingSize(a, net.answer, x, y, pairs, net.maxFlow);
    MatchingMaximum(a, x, y, pairs, net.maxFlow, Reached(net.parent[..]));
  }
}
