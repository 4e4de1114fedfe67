/**
 * Augmentation and the answer list: what one walk back along an augmenting
 * path does to the arcs (the inner loop of `maxFlow()`), which arcs it
 * appends to `answer`, and which answer arcs the final count keeps.
 */
module Augmenting {
  import opened Residual
  import opened Layout
  import opened Paths

  /** The arc is a forward arc between a left and a right vertex (an input pair). */
  predicate IsPairing(e: Arc, s: int, t: int)
  {
    e.forward && e.from != s && e.to != t
  }

  /**
   * The test under which `maxFlow()` appends an arc to `answer`: only arcs
   * between a left and a right vertex pass it, and an arc once saved never
   * passes it again.
   */
  predicate Eligible(e: Arc, s: int, t: int): (r: bool)
    ensures r ==> IsPairing(e, s, t)
    ensures e.saved ==> !r
  {
    IsPairing(e, s, t) && !e.saved
  }

  /**
   * The arcs that one walk back along q appends to `answer`, in the order the
   * walk meets them (from the end of q towards its start), each judged as it
   * was before the walk.
   */
  ghost function Recorded(a: seq<Arc>, q: seq<int>, s: int, t: int): (r: seq<int>)
    requires forall k :: 0 <= k < |q| ==> 0 <= q[k] < |a|
    ensures |r| <= |q|
    ensures forall k :: 0 <= k < |r| ==> r[k] in q && Eligible(a[r[k]], s, t)
  {
    if q == [] then []
    else Recorded(a, q[1..], s, t) + (if Eligible(a[q[0]], s, t) then [q[0]] else [])
  }

  /**
   * A walk records exactly the eligible arcs of q; when q has no repeated
   * arc, it records none twice.
   */
  lemma {:induction false} RecordedExactly(a: seq<Arc>, q: seq<int>, s: int, t: int)
    requires forall k :: 0 <= k < |q| ==> 0 <= q[k] < |a|
    ensures forall i :: i in Recorded(a, q, s, t) <==> i in q && Eligible(a[i], s, t)
    ensures (forall k, l :: 0 <= k < l < |q| ==> q[k] != q[l]) ==>
              forall k, l :: 0 <= k < l < |Recorded(a, q, s, t)| ==>
                Recorded(a, q, s, t)[k] != Recorded(a, q, s, t)[l]
  {
    if q != [] {
      RecordedExactly(a, q[1..], s, t);
      var r := Recorded(a, q[1..], s, t);
      if forall k, l :: 0 <= k < l < |q| ==> q[k] != q[l] {
        assert forall k, l :: 0 <= k < l < |q[1..]| ==> q[1..][k] != q[1..][l] by {
          forall k, l | 0 <= k < l < |q[1..]| ensures q[1..][k] != q[1..][l] {
            assert q[1..][k] == q[k + 1] && q[1..][l] == q[l + 1];
          }
        }
        forall k | 0 <= k < |r| ensures r[k] != q[0] {
          assert r[k] in r;
          var j :| 0 <= j < |q[1..]| && q[1..][j] == r[k];
          assert q[j + 1] == r[k];
        }
      }
    }
  }

  /**
   * The answer list: arcs between a left and a right vertex, none twice,
   * exactly the saved arcs; every such arc that carries flow is saved.
   */
  ghost predicate AnswerOK(a: seq<Arc>, ans: seq<int>, s: int, t: int)
  {
    (forall k :: 0 <= k < |ans| ==> 0 <= ans[k] < |a| && IsPairing(a[ans[k]], s, t)) &&
    (forall k, l :: 0 <= k < l < |ans| ==> ans[k] != ans[l]) &&
    (forall i :: 0 <= i < |a| ==> (a[i].saved <==> i in ans)) &&
    (forall i :: 0 <= i < |a| && IsPairing(a[i], s, t) && a[i].flow > 0 ==> a[i].saved)
  }

  /**
   * Arc i of a, compared with arc i of A: the same shape, m more flow if i is
   * on q, m less if its paired arc is on q, and saved if it was or if it is
   * in rec.
   */
  ghost predicate AugmentedAt(A: seq<Arc>, a: seq<Arc>, q: seq<int>, m: int, rec: seq<int>, i: int)
  {
    0 <= i < |A| && i < |a| && SameShape(a[i], A[i]) &&
    a[i].flow == A[i].flow + (if i in q then m else 0) - (if A[i].other in q then m else 0) &&
    (a[i].saved <==> A[i].saved || i in rec)
  }

  /** a is A with m units pushed along q and the arcs of rec saved. */
  ghost predicate Augmented(A: seq<Arc>, a: seq<Arc>, q: seq<int>, m: int, rec: seq<int>)
  {
    |a| == |A| && forall i :: 0 <= i < |A| ==> AugmentedAt(A, a, q, m, rec, i)
  }

  /** Before the walk nothing is pushed and nothing recorded (the base case the walk invariant starts from). */
  lemma AugmentedNone(A: seq<Arc>, m: int)
    ensures Augmented(A, A, [], m, [])
  {
    forall i | 0 <= i < |A| ensures AugmentedAt(A, A, [], m, [], i) {
    }
  }

  /**
   * Pushing m on p[j-1], once p[j..] has been pushed, gives the arcs with
   * p[j-1..] pushed; on an arc-simple path no arc is pushed twice.
   */
  lemma PushStep(A: seq<Arc>, a: seq<Arc>, p: seq<int>, j: int, m: int, rec: seq<int>)
    requires Paired(A) && ArcSimple(A, p) && 1 <= j <= |p|
    requires Augmented(A, a, p[j..], m, rec)
    ensures 0 <= p[j - 1] < |a| && PairedAt(a, p[j - 1]) && SameShape(a[p[j - 1]], A[p[j - 1]])
    ensures Augmented(A, Push(a, p[j - 1], m), p[j - 1..], m, rec)
  {
    var id := p[j - 1];
    assert PairedAt(A, id) && AugmentedAt(A, a, p[j..], m, rec, id);
    var o := A[id].other;
    if o != NoPair {
      assert PairedAt(A, o) && AugmentedAt(A, a, p[j..], m, rec, o);
    }
    assert p[j - 1..] == [id] + p[j..];
    assert id !in p[j..] by {
      forall k | j <= k < |p| ensures p[k] != id { }
    }
    var b, q := Push(a, id, m), p[j - 1..];
    forall i | 0 <= i < |A|
      ensures AugmentedAt(A, b, q, m, rec, i)
    {
      assert AugmentedAt(A, a, p[j..], m, rec, i);
      if i == id || i == o {
      } else {
        assert PairedAt(A, i);
        assert A[i].other != id;
      }
    }
  }

  /** Marking arc k saved records it. */
  lemma MarkStep(A: seq<Arc>, a: seq<Arc>, q: seq<int>, m: int, rec: seq<int>, k: int)
    requires Augmented(A, a, q, m, rec) && 0 <= k < |a|
    ensures Augmented(A, a[k := a[k].(saved := true)], q, m, rec + [k])
  {
    var b := a[k := a[k].(saved := true)];
    forall i | 0 <= i < |A| ensures AugmentedAt(A, b, q, m, rec + [k], i) {
      assert AugmentedAt(A, a, q, m, rec, i);
    }
  }

  /**
   * Once the arcs after p[j-1] have been walked, the walk meets p[j-2]: it is
   * not yet recorded, and it is eligible now exactly when it was before the
   * walk, so recording it when eligible extends the record to p[j-2..].
   */
  lemma RecordStep(A: seq<Arc>, a: seq<Arc>, p: seq<int>, j: int, m: int, s: int, t: int)
    requires ArcSimple(A, p) && 2 <= j <= |p|
    requires Augmented(A, a, p[j - 1..], m, Recorded(A, p[j - 1..|p| - 1], s, t))
    ensures 0 <= p[j - 2] < |a|
    ensures Eligible(a[p[j - 2]], s, t) == Eligible(A[p[j - 2]], s, t)
    ensures Recorded(A, p[j - 2..|p| - 1], s, t) ==
            Recorded(A, p[j - 1..|p| - 1], s, t) + (if Eligible(A[p[j - 2]], s, t) then [p[j - 2]] else [])
  {
    var q := p[j - 2..|p| - 1];
    assert q[1..] == p[j - 1..|p| - 1];
    RecordedExactly(A, p[j - 1..|p| - 1], s, t);
    assert p[j - 2] !in p[j - 1..|p| - 1];
    assert AugmentedAt(A, a, p[j - 1..], m, Recorded(A, p[j - 1..|p| - 1], s, t), p[j - 2]);
  }

  /** Where the walk stands once p[j..] is pushed: the tail of p[j], or t before the first push. */
  ghost function WalkHead(a: seq<Arc>, p: seq<int>, j: int, t: int): int
    requires 0 <= j <= |p| && forall k :: 0 <= k < |p| ==> 0 <= p[k] < |a|
  {
    if j < |p| then a[p[j]].from else t
  }

  /**
   * Pushing m on p[j-1] moves the m units already carried from the head of
   * p[j-1] to t back to its tail: every vertex set gains net inflow as for m
   * units from the new walk head to t.
   */
  lemma WalkNet(A: seq<Arc>, a: seq<Arc>, p: seq<int>, j: int, m: int, s: int, t: int)
    requires IsPath(A, p, s, t) && 1 <= j <= |p| && |a| == |A|
    requires PairedAt(a, p[j - 1]) && SameShape(a[p[j - 1]], A[p[j - 1]])
    requires forall S :: Sum(a, Net(S)) == Sum(A, Net(S)) + Across(m, S, WalkHead(A, p, j, t), t)
    ensures forall S :: Sum(Push(a, p[j - 1], m), Net(S)) ==
                        Sum(A, Net(S)) + Across(m, S, WalkHead(A, p, j - 1, t), t)
  {
    var id := p[j - 1];
    assert A[id].to == WalkHead(A, p, j, t);
    forall S ensures Sum(Push(a, id, m), Net(S)) == Sum(A, Net(S)) + Across(m, S, WalkHead(A, p, j - 1, t), t) {
      PushNet(a, id, m, S);
    }
  }

  /** Saving an arc leaves every flow sum as it is. */
  lemma MarkNet(a: seq<Arc>, k: int)
    requires 0 <= k < |a|
    ensures forall S :: Sum(a[k := a[k].(saved := true)], Net(S)) == Sum(a, Net(S))
  {
    forall S ensures Sum(a[k := a[k].(saved := true)], Net(S)) == Sum(a, Net(S)) {
      SumUpdate(a, k, a[k].(saved := true), Net(S));
    }
  }

  /**
   * The walk back along p after pushing p[j..] and recording rec: the arcs
   * are A with m pushed along p[j..] and the arcs of rec saved, the answer
   * list has grown by rec, and every vertex set has gained the net inflow of
   * m units from the walk head to t.
   */
  ghost predicate Walked(A: seq<Arc>, a: seq<Arc>, ans0: seq<int>, ans: seq<int>,
                         p: seq<int>, j: int, rec: seq<int>, m: int, t: int)
  {
    1 <= |p| && 0 <= j <= |p| && (forall k :: 0 <= k < |p| ==> 0 <= p[k] < |A|) &&
    Augmented(A, a, p[j..], m, rec) && ans == ans0 + rec &&
    forall S :: Sum(a, Net(S)) == Sum(A, Net(S)) + Across(m, S, WalkHead(A, p, j, t), t)
  }

  /**
   * The walk after pushing p[j..]: it has recorded the eligible arcs among
   * p[j-1..], except the last arc of p, which the walk never tests.
   */
  ghost predicate Walking(A: seq<Arc>, a: seq<Arc>, ans0: seq<int>, ans: seq<int>,
                          p: seq<int>, j: int, m: int, s: int, t: int)
  {
    1 <= |p| && 0 <= j <= |p| && (forall k :: 0 <= k < |p| ==> 0 <= p[k] < |A|) &&
    Walked(A, a, ans0, ans, p, j, Recorded(A, p[if j == 0 then 0 else j - 1..|p| - 1], s, t), m, t)
  }

  /** The walk starts at t with nothing pushed or recorded (the invariant on entry to `Walk`'s loop). */
  lemma WalkStarts(A: seq<Arc>, ans0: seq<int>, p: seq<int>, m: int, s: int, t: int)
    requires 1 <= |p| && forall k :: 0 <= k < |p| ==> 0 <= p[k] < |A|
    ensures Walking(A, A, ans0, ans0, p, |p|, m, s, t)
  {
    AugmentedNone(A, m);
    assert p[|p|..] == [] && p[|p| - 1..|p| - 1] == [];
  }

  /** Pushing m on p[j-1] moves the walk head to the tail of p[j-1]. */
  lemma WalkPush(A: seq<Arc>, a: seq<Arc>, ans0: seq<int>, ans: seq<int>,
                 p: seq<int>, j: int, rec: seq<int>, m: int, s: int, t: int)
    requires Walked(A, a, ans0, ans, p, j, rec, m, t) && 1 <= j
    requires Paired(A) && IsPath(A, p, s, t) && ArcSimple(A, p)
    ensures 0 <= p[j - 1] < |a| && PairedAt(a, p[j - 1]) && a[p[j - 1]].from == A[p[j - 1]].from
    ensures Walked(A, Push(a, p[j - 1], m), ans0, ans, p, j - 1, rec, m, t)
  {
    PushStep(A, a, p, j, m, rec);
    WalkNet(A, a, p, j, m, s, t);
  }

  /** Appending arc k to the answer list and saving it records k. */
  lemma WalkMark(A: seq<Arc>, a: seq<Arc>, ans0: seq<int>, ans: seq<int>,
                 p: seq<int>, j: int, rec: seq<int>, m: int, t: int, k: int)
    requires Walked(A, a, ans0, ans, p, j, rec, m, t) && 0 <= k < |a|
    ensures Walked(A, a[k := a[k].(saved := true)], ans0, ans + [k], p, j, rec + [k], m, t)
  {
    MarkStep(A, a, p[j..], m, rec, k);
    MarkNet(a, k);
  }

  /**
   * One step of the walk: push m on p[j-1], then, if the parent arc p[j-2] of
   * its tail is eligible, append it to the answer list and save it.
   */
  lemma WalkStep(A: seq<Arc>, a: seq<Arc>, ans0: seq<int>, ans: seq<int>,
                 p: seq<int>, j: int, m: int, s: int, t: int)
    requires Walking(A, a, ans0, ans, p, j, m, s, t) && 1 <= j
    requires Paired(A) && IsPath(A, p, s, t) && ArcSimple(A, p)
    ensures 0 <= p[j - 1] < |a| && PairedAt(a, p[j - 1]) && a[p[j - 1]].from == A[p[j - 1]].from
    ensures var a1 := Push(a, p[j - 1], m);
      if j >= 2 && Eligible(a1[p[j - 2]], s, t) then
        Walking(A, a1[p[j - 2] := a1[p[j - 2]].(saved := true)], ans0, ans + [p[j - 2]], p, j - 1, m, s, t)
      else
        Walking(A, a1, ans0, ans, p, j - 1, m, s, t)
  {
    if j == 1 {
      WalkStepLast(A, a, ans0, ans, p, m, s, t);
    } else if Eligible(A[p[j - 2]], s, t) {
      WalkStepSave(A, a, ans0, ans, p, j, m, s, t);
    } else {
      WalkStepSkip(A, a, ans0, ans, p, j, m, s, t);
    }
  }

  /** The last step of the walk pushes m on the first arc of p and tests nothing. */
  lemma WalkStepLast(A: seq<Arc>, a: seq<Arc>, ans0: seq<int>, ans: seq<int>,
                     p: seq<int>, m: int, s: int, t: int)
    requires Walking(A, a, ans0, ans, p, 1, m, s, t)
    requires Paired(A) && IsPath(A, p, s, t) && ArcSimple(A, p)
    ensures 0 <= p[0] < |a| && PairedAt(a, p[0]) && a[p[0]].from == A[p[0]].from
    ensures Walking(A, Push(a, p[0], m), ans0, ans, p, 0, m, s, t)
  {
    var n := |p|;
    WalkPush(A, a, ans0, ans, p, 1, Recorded(A, p[0..n - 1], s, t), m, s, t);
  }

  /** A step that finds the parent arc p[j-2] eligible saves it and appends it to the answer list. */
  lemma WalkStepSave(A: seq<Arc>, a: seq<Arc>, ans0: seq<int>, ans: seq<int>,
                     p: seq<int>, j: int, m: int, s: int, t: int)
    requires Walking(A, a, ans0, ans, p, j, m, s, t) && 2 <= j
    requires Paired(A) && IsPath(A, p, s, t) && ArcSimple(A, p)
    requires Eligible(A[p[j - 2]], s, t)
    ensures 0 <= p[j - 1] < |a| && PairedAt(a, p[j - 1]) && a[p[j - 1]].from == A[p[j - 1]].from
    ensures var a1 := Push(a, p[j - 1], m);
      Eligible(a1[p[j - 2]], s, t) &&
      Walking(A, a1[p[j - 2] := a1[p[j - 2]].(saved := true)], ans0, ans + [p[j - 2]], p, j - 1, m, s, t)
  {
    var rec := Recorded(A, p[j - 1..|p| - 1], s, t);
    WalkPush(A, a, ans0, ans, p, j, rec, m, s, t);
    var a1 := Push(a, p[j - 1], m);
    RecordStep(A, a1, p, j, m, s, t);
    WalkMark(A, a1, ans0, ans, p, j - 1, rec, m, t, p[j - 2]);
  }

  /** A step that finds the parent arc p[j-2] not eligible records nothing. */
  lemma WalkStepSkip(A: seq<Arc>, a: seq<Arc>, ans0: seq<int>, ans: seq<int>,
                     p: seq<int>, j: int, m: int, s: int, t: int)
    requires Walking(A, a, ans0, ans, p, j, m, s, t) && 2 <= j
    requires Paired(A) && IsPath(A, p, s, t) && ArcSimple(A, p)
    requires !Eligible(A[p[j - 2]], s, t)
    ensures 0 <= p[j - 1] < |a| && PairedAt(a, p[j - 1]) && a[p[j - 1]].from == A[p[j - 1]].from
    ensures !Eligible(Push(a, p[j - 1], m)[p[j - 2]], s, t)
    ensures Walking(A, Push(a, p[j - 1], m), ans0, ans, p, j - 1, m, s, t)
  {
    var rec := Recorded(A, p[j - 1..|p| - 1], s, t);
    WalkPush(A, a, ans0, ans, p, j, rec, m, s, t);
    RecordStep(A, Push(a, p[j - 1], m), p, j, m, s, t);
    assert Recorded(A, p[j - 2..|p| - 1], s, t) == rec;
  }

  /** The walk leaves every arc with its shape, so the layout and adjacency lists still describe it. */
  lemma AugmentedShape(A: seq<Arc>, a: seq<Arc>, q: seq<int>, m: int, rec: seq<int>,
                       x: int, y: int, pairs: seq<(int, int)>, g: seq<seq<int>>)
    requires Augmented(A, a, q, m, rec) && Shaped(A, x, y, pairs) && Listed(g, A)
    ensures Shaped(a, x, y, pairs) && Listed(g, a)
  {
    forall j | 0 <= j < |a| ensures ShapedAt(a, x, y, pairs, j) && ListedAt(g, a, j) {
      assert ShapedAt(A, x, y, pairs, j) && ListedAt(g, A, j) && AugmentedAt(A, a, q, m, rec, j);
    }
    forall u, k | 0 <= u < |g| && 0 <= k < |g[u]|
      ensures 0 <= g[u][k] < |a| && a[g[u][k]].from == u
    {
      assert AugmentedAt(A, a, q, m, rec, g[u][k]);
    }
  }

  /**
   * Pushing m, at most the residual capacity of every arc of an arc-simple
   * path, along that path keeps every flow within its capacity and every pair
   * of flows summing to 1, when all capacities are 1.
   */
  lemma AugmentedFlows(A: seq<Arc>, a: seq<Arc>, p: seq<int>, m: int, rec: seq<int>)
    requires Augmented(A, a, p, m, rec) && Paired(A) && FlowsOK(A) && ArcSimple(A, p)
    requires forall i :: 0 <= i < |A| ==> A[i].capacity == 1
    requires 0 < m && forall k :: 0 <= k < |p| ==> m <= ResCap(A[p[k]])
    ensures FlowsOK(a)
  {
    forall i | 0 <= i < |a| ensures FlowOKAt(a, i) {
      assert AugmentedAt(A, a, p, m, rec, i) && PairedAt(A, i) && FlowOKAt(A, i);
      var o := A[i].other;
      if o != NoPair {
        assert AugmentedAt(A, a, p, m, rec, o) && PairedAt(A, o);
      }
      if i in p {
        var k :| 0 <= k < |p| && p[k] == i;
        assert o !in p;
      }
      if o in p {
        var k :| 0 <= k < |p| && p[k] == o;
        assert i !in p;
      }
    }
  }

  /**
   * The walk keeps the answer list consistent: it appends exactly the
   * eligible arcs of the path (the last arc enters t and is never one), none
   * already in the list, and every arc between a left and a right vertex
   * that now carries flow is saved.
   */
  lemma AugmentedAnswer(A: seq<Arc>, a: seq<Arc>, p: seq<int>, m: int, ans: seq<int>, s: int, t: int)
    requires ArcSimple(A, p) && |p| >= 1 && A[p[|p| - 1]].to == t && m >= 0
    requires AnswerOK(A, ans, s, t)
    requires Augmented(A, a, p, m, Recorded(A, p[..|p| - 1], s, t))
    ensures AnswerOK(a, ans + Recorded(A, p[..|p| - 1], s, t), s, t)
  {
    var q := p[..|p| - 1];
    var rec := Recorded(A, q, s, t);
    RecordedExactly(A, q, s, t);
    var r := ans + rec;
    forall k | 0 <= k < |r| ensures 0 <= r[k] < |a| && IsPairing(a[r[k]], s, t) {
      if k < |ans| {
        assert r[k] == ans[k];
      } else {
        assert r[k] == rec[k - |ans|] && r[k] in rec;
      }
      assert AugmentedAt(A, a, p, m, rec, r[k]);
    }
    forall k, l | 0 <= k < l < |r| ensures r[k] != r[l] {
      if l < |ans| {
        assert r[k] == ans[k] && r[l] == ans[l];
      } else if k < |ans| {
        assert r[k] == ans[k] && r[l] == rec[l - |ans|] && r[l] in rec;
      } else {
        assert r[k] == rec[k - |ans|] && r[l] == rec[l - |ans|];
      }
    }
    forall i | 0 <= i < |a| ensures a[i].saved <==> i in r {
      assert AugmentedAt(A, a, p, m, rec, i);
    }
    forall i | 0 <= i < |a| && IsPairing(a[i], s, t) && a[i].flow > 0 ensures a[i].saved {
      assert AugmentedAt(A, a, p, m, rec, i);
      if i in p && !A[i].saved {
        var k :| 0 <= k < |p| && p[k] == i;
        assert k < |p| - 1 && q[k] == i;
      }
    }
  }

  /** The answer arcs that carry flow, in answer order: the ones the final count keeps. */
  ghost function Carrying(a: seq<Arc>, ans: seq<int>): (r: seq<int>)
    requires forall k :: 0 <= k < |ans| ==> 0 <= ans[k] < |a|
    ensures forall k :: 0 <= k < |r| ==> 0 <= r[k] < |a| && a[r[k]].flow > 0
  {
    if ans == [] then []
    else
      var i := ans[|ans| - 1];
      Carrying(a, ans[..|ans| - 1]) + (if a[i].flow > 0 then [i] else [])
  }

  /** The pairs `solve()` prints: one (from, to) pair per arc of c, in the order of c. */
  function Endpoints(a: seq<Arc>, c: seq<int>): (r: seq<(int, int)>)
    requires forall k :: 0 <= k < |c| ==> 0 <= c[k] < |a|
    ensures |r| == |c|
    ensures forall k :: 0 <= k < |c| ==> r[k].0 == a[c[k]].from && r[k].1 == a[c[k]].to
  {
    seq(|c|, k requires 0 <= k < |c| => (a[c[k]].from, a[c[k]].to))
  }

  /**
   * The count keeps exactly the answer arcs that carry flow; from an answer
   * list with no repeated arc it keeps none twice.
   */
  lemma {:induction false} CarryingExactly(a: seq<Arc>, ans: seq<int>)
    requires forall k :: 0 <= k < |ans| ==> 0 <= ans[k] < |a|
    ensures forall i :: i in Carrying(a, ans) <==> i in ans && a[i].flow > 0
    ensures (forall k, l :: 0 <= k < l < |ans| ==> ans[k] != ans[l]) ==>
              forall k, l :: 0 <= k < l < |Carrying(a, ans)| ==>
                Carrying(a, ans)[k] != Carrying(a, ans)[l]
  {
    if ans != [] {
      var n := |ans| - 1;
      var front := ans[..n];
      assert ans == front + [ans[n]];
      CarryingExactly(a, front);
      var c := Carrying(a, front);
      if forall k, l :: 0 <= k < l < |ans| ==> ans[k] != ans[l] {
        forall k | 0 <= k < |c| ensures c[k] != ans[n] {
          assert c[k] in c;
          var j :| 0 <= j < |front| && front[j] == c[k];
        }
      }
    }
  }
}
