/**
 * Augmenting paths in the residual network: a path is a sequence of arc ids,
 * each arc with positive residual capacity, each starting where the previous
 * one ends; its bottleneck is the smallest residual capacity on it.
 */
module Paths {
  import opened Residual

  /** `Integer.MAX_VALUE`, the bottleneck of the empty path. */
  const Infinity := 0x7fff_ffff

  /** p leads from s to t through arcs of positive residual capacity. */
  ghost predicate IsPath(a: seq<Arc>, p: seq<int>, s: int, t: int)
  {
    (forall k :: 0 <= k < |p| ==> 0 <= p[k] < |a| && ResCap(a[p[k]]) > 0) &&
    (forall k :: 0 < k < |p| ==> a[p[k - 1]].to == a[p[k]].from) &&
    (if p == [] then s == t else a[p[0]].from == s && a[p[|p| - 1]].to == t)
  }

  /**
   * No arc occurs twice on p, and no arc occurs on p together with its paired
   * arc, so that pushing flow along p touches each arc at most once.
   */
  ghost predicate ArcSimple(a: seq<Arc>, p: seq<int>)
  {
    (forall k :: 0 <= k < |p| ==> 0 <= p[k] < |a|) &&
    (forall k, l :: 0 <= k < l < |p| ==> p[k] != p[l]) &&
    (forall k, l :: 0 <= k < |p| && 0 <= l < |p| ==> a[p[k]].other != p[l])
  }

  function Min(m: int, n: int): int
  {
    if m <= n then m else n
  }

  /**
   * The running minimum of residual capacities that `BFS()` keeps in `M[]`:
   * never above the starting value `Integer.MAX_VALUE`, nor above the
   * residual capacity of any arc of the path.
   */
  function Bottleneck(a: seq<Arc>, p: seq<int>): (r: int)
    requires forall k :: 0 <= k < |p| ==> 0 <= p[k] < |a|
    ensures r <= Infinity
    ensures forall k :: 0 <= k < |p| ==> r <= ResCap(a[p[k]])
  {
    if p == [] then Infinity
    else Min(Bottleneck(a, p[..|p| - 1]), ResCap(a[p[|p| - 1]]))
  }

  /**
   * The bottleneck of a path is positive, at most the residual capacity of
   * every arc on the path, and (on a non-empty path whose residual capacities
   * stay below Infinity) equal to one of them.
   */
  lemma {:induction false} BottleneckIsMin(a: seq<Arc>, p: seq<int>, s: int, t: int)
    requires IsPath(a, p, s, t)
    ensures 0 < Bottleneck(a, p) <= Infinity
    ensures forall k :: 0 <= k < |p| ==> Bottleneck(a, p) <= ResCap(a[p[k]])
    ensures p != [] && (forall k :: 0 <= k < |p| ==> ResCap(a[p[k]]) <= Infinity) ==>
              exists k :: 0 <= k < |p| && Bottleneck(a, p) == ResCap(a[p[k]])
    decreases |p|
  {
    if p != [] {
      var n := |p| - 1;
      PathPrefix(a, p, s, t);
      BottleneckIsMin(a, p[..n], s, a[p[n]].from);
      if n > 0 && Bottleneck(a, p[..n]) <= ResCap(a[p[n]]) &&
         (forall k :: 0 <= k < |p| ==> ResCap(a[p[k]]) <= Infinity) {
        var k :| 0 <= k < n && Bottleneck(a, p[..n]) == ResCap(a[p[..n][k]]);
        assert p[..n][k] == p[k];
      }
    }
  }

  /**
   * Dropping the last arc of a path leaves a path to that arc's tail. This
   * and `PathSnoc` name the two directions in which callers take paths
   * apart and build them, so that `IsPath` is not unfolded at every use.
   */
  lemma PathPrefix(a: seq<Arc>, p: seq<int>, s: int, t: int)
    requires IsPath(a, p, s, t) && p != []
    ensures IsPath(a, p[..|p| - 1], s, a[p[|p| - 1]].from)
  {
  }

  /** Appending an arc of positive residual capacity at its tail extends a path. */
  lemma PathSnoc(a: seq<Arc>, p: seq<int>, s: int, u: int, b: int)
    requires IsPath(a, p, s, u) && 0 <= b < |a| && a[b].from == u && ResCap(a[b]) > 0
    ensures IsPath(a, p + [b], s, a[b].to)
  {
  }

  /**
   * R is closed under residual arcs: every arc with positive residual
   * capacity that leaves a vertex of R ends in R.
   */
  ghost predicate Closed(a: seq<Arc>, R: set<int>)
  {
    forall i :: 0 <= i < |a| && a[i].from in R && ResCap(a[i]) > 0 ==> a[i].to in R
  }

  /** No path of positive residual capacity leads from s to t. */
  ghost predicate NoPath(a: seq<Arc>, s: int, t: int)
  {
    forall p :: !IsPath(a, p, s, t)
  }

  /** R holds s but not t and is closed under residual arcs: a cut that no residual arc crosses. */
  ghost predicate Separates(a: seq<Arc>, R: set<int>, s: int, t: int)
  {
    s in R && t !in R && Closed(a, R)
  }

  /** Every path that starts in a closed set stays in it. */
  lemma {:induction false} PathStaysInside(a: seq<Arc>, R: set<int>, p: seq<int>, s: int, t: int)
    requires Closed(a, R) && s in R && IsPath(a, p, s, t)
    ensures t in R
    decreases |p|
  {
    if p != [] {
      var n := |p| - 1;
      PathPrefix(a, p, s, t);
      PathStaysInside(a, R, p[..n], s, a[p[n]].from);
    }
  }

  /**
   * A closed set that holds s but not t separates them: no path of positive
   * residual capacity leads from s to t.
   */
  lemma ClosedNoPath(a: seq<Arc>, R: set<int>, s: int, t: int)
    requires Separates(a, R, s, t)
    ensures NoPath(a, s, t)
  {
    forall p | IsPath(a, p, s, t)
      ensures false
    {
      PathStaysInside(a, R, p, s, t);
    }
  }
}
