/**
 * The solver object of the source (class `Main`): the arc arena, adjacency
 * lists, BFS parent array and queue, the running flow value and the answer
 * list, with the construction part of `solve()`, `BFS()`, `maxFlow()` and
 * the `flow > 0` extraction.
 */
module FlowNetwork {
  import opened Residual
  import opened Layout
  import opened Paths
  import opened Augmenting

  /**
   * An entry of `parent[]`: still null, the sentinel edge source->source
   * that BFS stores at the source, or the arc through which the vertex was
   * first reached.
   */
  datatype Parent = Unreached | Root | Via(arc: int)

  /** The vertices BFS has reached so far. */
  ghost function Reached(P: seq<Parent>): set<int>
  {
    set u | 0 <= u < |P| && P[u] != Unreached
  }

  /** Adding a new vertex below n to a set of vertices below n. */
  lemma OneMore(S: set<int>, u: int, n: nat)
    requires forall w :: w in S + {u} ==> 0 <= w < n
    requires u !in S
    ensures |S| < |S + {u}| <= n
  {
    FewerThan(S + {u}, n);
  }

  /** A set of vertices below n has at most n elements. */
  lemma {:induction false} FewerThan(S: set<int>, n: nat)
    requires forall u :: u in S ==> 0 <= u < n
    ensures |S| <= n
  {
    if n > 0 {
      FewerThan(S - {n - 1}, n - 1);
    } else {
      assert forall u :: u !in S;
      assert S == {};
    }
  }

  /**
   * Following `parent[]` back from the head of each arc of p gives that arc,
   * and the source holds the sentinel: walking back from the sink retraces p.
   */
  ghost predicate ParentChain(a: seq<Arc>, P: seq<Parent>, p: seq<int>, s: int)
  {
    0 <= s < |P| && P[s] == Root &&
    forall k :: 0 <= k < |p| ==> 0 <= p[k] < |a| && 0 <= a[p[k]].to < |P| && P[a[p[k]].to] == Via(p[k])
  }

  /**
   * What a successful search hands to the augmentation: p is a simple path of
   * positive residual capacity from s to t, m its bottleneck, and the parent
   * links retrace p.
   */
  ghost predicate AugmentingPath(a: seq<Arc>, P: seq<Parent>, p: seq<int>, m: int, s: int, t: int)
  {
    IsPath(a, p, s, t) && ArcSimple(a, p) && m == Bottleneck(a, p) && ParentChain(a, P, p, s)
  }

  /**
   * The arcs keep the layout of the construction and a valid flow, and the
   * adjacency lists list them.
   */
  ghost predicate Consistent(a: seq<Arc>, g: seq<seq<int>>, x: int, y: int, pairs: seq<(int, int)>)
  {
    Shaped(a, x, y, pairs) && |g| == VertexCount(x, y) && Listed(g, a) && FlowsOK(a)
  }

  /**
   * Pushing the bottleneck along an arc-simple path keeps the network
   * consistent: the layout is unchanged and the flows stay valid.
   */
  lemma AugmentedConsistent(A: seq<Arc>, a: seq<Arc>, p: seq<int>, m: int, rec: seq<int>,
                            g: seq<seq<int>>, x: int, y: int, pairs: seq<(int, int)>)
    requires ValidInput(x, y, pairs) && Consistent(A, g, x, y, pairs) && Augmented(A, a, p, m, rec)
    requires ArcSimple(A, p) && 0 < m && forall k :: 0 <= k < |p| ==> m <= ResCap(A[p[k]])
    ensures Consistent(a, g, x, y, pairs)
  {
    ShapedStructure(A, x, y, pairs);
    AugmentedShape(A, a, p, m, rec, x, y, pairs, g);
    AugmentedFlows(A, a, p, m, rec);
  }

  /**
   * An augmenting path is a path: the search that finds one has not ended
   * empty-handed. Taking the arcs as a ghost copy A equal to the array's
   * contents lets `FindPath` conclude this without unfolding the predicates
   * against the heap, which keeps that method's proof small.
   */
  lemma FoundPath(A: seq<Arc>, a: seq<Arc>, P: seq<Parent>, p: seq<int>, m: int, s: int, t: int)
    requires a == A && AugmentingPath(A, P, p, m, s, t)
    ensures AugmentingPath(a, P, p, m, s, t) && !NoPath(a, s, t)
  {
  }

  /**
   * The search leaves the arcs and adjacency lists as they were. Like
   * `FoundPath`, it exists so that `FindPath` can carry `Consistent` across
   * its loop through a ghost copy instead of unfolding it against the heap.
   */
  lemma StillConsistent(A: seq<Arc>, a: seq<Arc>, g: seq<seq<int>>, x: int, y: int, pairs: seq<(int, int)>)
    requires a == A && Consistent(A, g, x, y, pairs)
    ensures Consistent(a, g, x, y, pairs)
  {
  }

  /**
   * What BFS knows of a reached vertex v: pv is a simple path of positive
   * residual capacity from s to v whose bottleneck is mv, its parent chain is
   * recorded in P, and every vertex on it is reached.
   */
  ghost predicate TreeAt(a: seq<Arc>, P: seq<Parent>, mv: int, pv: seq<int>, s: int, v: int)
  {
    IsPath(a, pv, s, v) && ArcSimple(a, pv) && mv == Bottleneck(a, pv) && Chained(a, P, pv)
  }

  /** Each arc of pv is the parent of its head, and its tail is reached. */
  ghost predicate Chained(a: seq<Arc>, P: seq<Parent>, pv: seq<int>)
  {
    forall k :: 0 <= k < |pv| ==>
      0 <= pv[k] < |a| &&
      0 <= a[pv[k]].to < |P| && P[a[pv[k]].to] == Via(pv[k]) &&
      0 <= a[pv[k]].from < |P| && P[a[pv[k]].from] != Unreached
  }

  /** The BFS tree: the source is the root and every reached vertex satisfies TreeAt. */
  ghost predicate Tree(a: seq<Arc>, P: seq<Parent>, M: seq<int>, paths: seq<seq<int>>, s: int)
  {
    |M| == |P| && |paths| == |P| && 0 <= s < |P| &&
    P[s] == Root && paths[s] == [] && M[s] == Infinity &&
    (forall u :: 0 <= u < |P| && u != s ==> P[u] != Root) &&
    (forall u {:trigger TreeAt(a, P, M[u], paths[u], s, u)} ::
       0 <= u < |P| && P[u] != Unreached ==> TreeAt(a, P, M[u], paths[u], s, u))
  }

  /**
   * Giving an unreached vertex w a parent leaves the tree path of every
   * other reached vertex intact (a single step of `TreeGrows`, kept apart to
   * keep that lemma's proof small).
   */
  lemma TreeAtKept(a: seq<Arc>, P: seq<Parent>, mv: int, pv: seq<int>, s: int, v: int, w: int, b: int)
    requires TreeAt(a, P, mv, pv, s, v) && 0 <= w < |P| && P[w] == Unreached
    ensures TreeAt(a, P[w := Via(b)], mv, pv, s, v)
  {
  }

  /**
   * Appending arc b to the simple path pu keeps it simple when b leads to a
   * vertex w that no arc of pu enters or leaves.
   */
  lemma ArcSimpleSnoc(a: seq<Arc>, pu: seq<int>, b: int)
    requires ArcSimple(a, pu) && 0 <= b < |a| && PairedAt(a, b)
    requires forall k :: 0 <= k < |pu| ==> PairedAt(a, pu[k])
    requires forall k :: 0 <= k < |pu| ==> a[pu[k]].to != a[b].to && a[pu[k]].from != a[b].to
    ensures ArcSimple(a, pu + [b])
  {
    var q := pu + [b];
    forall k | 0 <= k < |pu|
      ensures pu[k] != b && a[pu[k]].other != b && a[b].other != pu[k]
    {
      assert PairedAt(a, pu[k]);
    }
    forall k, l | 0 <= k < l < |q| ensures q[k] != q[l] {
      if l < |pu| { assert q[k] == pu[k] && q[l] == pu[l]; }
    }
    forall k, l | 0 <= k < |q| && 0 <= l < |q| ensures a[q[k]].other != q[l] {
      if k < |pu| && l < |pu| { assert q[k] == pu[k] && q[l] == pu[l]; }
    }
  }

  /** The tree path to u, extended by arc b to an unreached vertex, is a tree path to b's head. */
  lemma TreeAtNew(a: seq<Arc>, P: seq<Parent>, mu: int, pu: seq<int>, s: int, u: int, b: int)
    requires TreeAt(a, P, mu, pu, s, u) && Paired(a)
    requires 0 <= b < |a| && a[b].from == u && ResCap(a[b]) > 0
    requires 0 <= u < |P| && P[u] != Unreached
    requires 0 <= a[b].to < |P| && P[a[b].to] == Unreached
    ensures TreeAt(a, P[a[b].to := Via(b)], Min(mu, ResCap(a[b])), pu + [b], s, a[b].to)
  {
    PathSnoc(a, pu, s, u, b);
    forall k | 0 <= k < |pu|
      ensures PairedAt(a, pu[k]) && a[pu[k]].to != a[b].to && a[pu[k]].from != a[b].to
    {
    }
    ArcSimpleSnoc(a, pu, b);
    BottleneckSnoc(a, pu, b);
    ChainedSnoc(a, P, pu, b);
  }

  /** The `M[]` update of `BFS()`: extending a path by b takes the minimum with b's residual capacity. */
  lemma BottleneckSnoc(a: seq<Arc>, pu: seq<int>, b: int)
    requires forall k :: 0 <= k < |pu| ==> 0 <= pu[k] < |a|
    requires 0 <= b < |a|
    ensures Bottleneck(a, pu + [b]) == Min(Bottleneck(a, pu), ResCap(a[b]))
  {
    assert (pu + [b])[..|pu|] == pu;
  }

  /** Recording b as the parent of its head extends the parent chain of the path by b. */
  lemma ChainedSnoc(a: seq<Arc>, P: seq<Parent>, pu: seq<int>, b: int)
    requires Chained(a, P, pu) && 0 <= b < |a|
    requires 0 <= a[b].from < |P| && P[a[b].from] != Unreached
    requires 0 <= a[b].to < |P| && P[a[b].to] == Unreached
    ensures Chained(a, P[a[b].to := Via(b)], pu + [b])
  {
    var q := pu + [b];
    var P' := P[a[b].to := Via(b)];
    forall k | 0 <= k < |q|
      ensures 0 <= q[k] < |a|
      ensures 0 <= a[q[k]].to < |P'| && P'[a[q[k]].to] == Via(q[k])
      ensures 0 <= a[q[k]].from < |P'| && P'[a[q[k]].from] != Unreached
    {
      if k < |pu| {
        assert q[k] == pu[k];
      }
    }
  }

  /**
   * Reaching the unreached vertex w through arc b, which leaves the reached
   * vertex u with positive residual capacity, keeps the tree a tree.
   */
  lemma TreeGrows(a: seq<Arc>, P: seq<Parent>, M: seq<int>, paths: seq<seq<int>>, s: int, u: int, b: int)
    requires Tree(a, P, M, paths, s) && Paired(a)
    requires 0 <= u < |P| && P[u] != Unreached
    requires 0 <= b < |a| && a[b].from == u && ResCap(a[b]) > 0
    requires 0 <= a[b].to < |P| && P[a[b].to] == Unreached
    ensures Tree(a, P[a[b].to := Via(b)], M[a[b].to := Min(M[u], ResCap(a[b]))],
                 paths[a[b].to := paths[u] + [b]], s)
  {
    var w := a[b].to;
    var P' := P[w := Via(b)];
    var M' := M[w := Min(M[u], ResCap(a[b]))];
    var paths' := paths[w := paths[u] + [b]];
    forall v | 0 <= v < |P'| && P'[v] != Unreached
      ensures TreeAt(a, P', M'[v], paths'[v], s, v)
    {
      if v == w {
        assert TreeAt(a, P, M[u], paths[u], s, u);
        TreeGrowsNew(a, P, M, paths, s, u, b);
      } else {
        assert TreeAt(a, P, M[v], paths[v], s, v);
        TreeGrowsOld(a, P, M, paths, s, u, b, v);
      }
    }
  }

  /** The newly reached head w of b gets the tree path to u extended by b. */
  lemma TreeGrowsNew(a: seq<Arc>, P: seq<Parent>, M: seq<int>, paths: seq<seq<int>>, s: int, u: int, b: int)
    requires |M| == |P| && |paths| == |P| && Paired(a)
    requires 0 <= u < |P| && P[u] != Unreached && TreeAt(a, P, M[u], paths[u], s, u)
    requires 0 <= b < |a| && a[b].from == u && ResCap(a[b]) > 0
    requires 0 <= a[b].to < |P| && P[a[b].to] == Unreached
    ensures var w := a[b].to;
      TreeAt(a, P[w := Via(b)], M[w := Min(M[u], ResCap(a[b]))][w], paths[w := paths[u] + [b]][w], s, w)
  {
    TreeAtNew(a, P, M[u], paths[u], s, u, b);
  }

  /** A vertex v reached before keeps its tree path when w is reached. */
  lemma TreeGrowsOld(a: seq<Arc>, P: seq<Parent>, M: seq<int>, paths: seq<seq<int>>, s: int, u: int, b: int, v: int)
    requires |M| == |P| && |paths| == |P| && 0 <= u < |P|
    requires 0 <= b < |a| && 0 <= a[b].to < |P| && P[a[b].to] == Unreached
    requires 0 <= v < |P| && P[v] != Unreached && TreeAt(a, P, M[v], paths[v], s, v)
    ensures var w := a[b].to;
      TreeAt(a, P[w := Via(b)], M[w := Min(M[u], ResCap(a[b]))][v], paths[w := paths[u] + [b]][v], s, v)
  {
    TreeAtKept(a, P, M[v], paths[v], s, v, a[b].to, b);
  }

  /** Every arc of positive residual capacity leaving a vertex of `done` ends at a reached vertex. */
  ghost predicate Explored(a: seq<Arc>, P: seq<Parent>, done: set<int>)
  {
    forall i :: 0 <= i < |a| && a[i].from in done && ResCap(a[i]) > 0 ==>
      0 <= a[i].to < |P| && P[a[i].to] != Unreached
  }

  /**
   * The BFS queue: it holds reached vertices, never the sink, none twice and
   * none already explored; together with the explored vertices and the
   * vertex being explored it covers every reached vertex.
   */
  ghost predicate QueueOK(P: seq<Parent>, queue: seq<int>, done: set<int>, cur: int, t: int)
  {
    (forall k :: 0 <= k < |queue| ==>
       0 <= queue[k] < |P| && P[queue[k]] != Unreached && queue[k] !in done &&
       queue[k] != t && queue[k] != cur) &&
    (forall k, l :: 0 <= k < l < |queue| ==> queue[k] != queue[l]) &&
    (forall u :: 0 <= u < |P| && P[u] != Unreached ==> u in done || u in queue || u == cur)
  }

  /**
   * The state of the search between two steps: a BFS tree rooted at s that
   * has not reached t, a well-formed queue, and every explored vertex with
   * all its residual arcs followed.
   */
  ghost predicate Searching(a: seq<Arc>, P: seq<Parent>, M: seq<int>, paths: seq<seq<int>>,
                            queue: seq<int>, done: set<int>, cur: int, s: int, t: int)
  {
    Tree(a, P, M, paths, s) && 0 <= t < |P| && P[t] == Unreached &&
    QueueOK(P, queue, done, cur, t) && Explored(a, P, done) &&
    (forall u :: u in done ==> 0 <= u < |P| && P[u] != Unreached)
  }

  /** The first j arcs of adj with positive residual capacity end at reached vertices. */
  ghost predicate Scanned(a: seq<Arc>, P: seq<Parent>, adj: seq<int>, j: int)
  {
    forall k :: 0 <= k < j && k < |adj| && 0 <= adj[k] < |a| && ResCap(a[adj[k]]) > 0 ==>
      0 <= a[adj[k]].to < |P| && P[a[adj[k]].to] != Unreached
  }

  /**
   * Scanning arc adj[j] (and, when it reaches a new vertex w, giving w a
   * parent) extends the scanned prefix by one.
   */
  lemma ScannedGrows(a: seq<Arc>, P: seq<Parent>, adj: seq<int>, j: int, w: int, pw: Parent)
    requires Scanned(a, P, adj, j) && 0 <= j < |adj| && 0 <= w < |P| && pw != Unreached
    requires 0 <= adj[j] < |a| && a[adj[j]].to == w
    ensures Scanned(a, P[w := pw], adj, j + 1)
  {
  }

  /**
   * Skipping arc adj[j] (no residual capacity, or its head already reached)
   * extends the scanned prefix by one. This and `ScannedGrows` are the two
   * steps of the scan loop's invariant, stated apart from `Visit` so that its
   * proof stays small.
   */
  lemma ScannedNext(a: seq<Arc>, P: seq<Parent>, adj: seq<int>, j: int)
    requires Scanned(a, P, adj, j) && 0 <= j < |adj| && 0 <= adj[j] < |a|
    requires ResCap(a[adj[j]]) > 0 ==> 0 <= a[adj[j]].to < |P| && P[a[adj[j]].to] != Unreached
    ensures Scanned(a, P, adj, j + 1)
  {
  }

  /** The search starts with only the source reached and queued (the invariant on entry to the BFS loop). */
  lemma SearchStarts(a: seq<Arc>, P: seq<Parent>, M: seq<int>, paths: seq<seq<int>>, s: int, t: int)
    requires 0 <= s < |P| && 0 <= t < |P| && s != t && |M| == |P| && |paths| == |P|
    requires forall u :: 0 <= u < |P| ==> P[u] == if u == s then Root else Unreached
    requires M[s] == Infinity && paths[s] == []
    ensures Searching(a, P, M, paths, [s], {}, -1, s, t)
  {
    forall u | 0 <= u < |P| && P[u] != Unreached
      ensures TreeAt(a, P, M[u], paths[u], s, u)
    {
      assert u == s;
    }
  }

  /** Taking the head of the queue makes it the vertex being explored (the first step of `Visit`). */
  lemma SearchDequeues(a: seq<Arc>, P: seq<Parent>, M: seq<int>, paths: seq<seq<int>>,
                       queue: seq<int>, done: set<int>, s: int, t: int)
    requires Searching(a, P, M, paths, queue, done, -1, s, t) && queue != []
    ensures Searching(a, P, M, paths, queue[1..], done, queue[0], s, t)
    ensures 0 <= queue[0] < |P| && P[queue[0]] != Unreached && queue[0] !in done
  {
    forall u | 0 <= u < |P| && P[u] != Unreached
      ensures u in done || u in queue[1..] || u == queue[0]
    {
      if u in queue && u != queue[0] {
        var k :| 0 <= k < |queue| && queue[k] == u;
        assert queue[1..][k - 1] == u;
      }
    }
  }

  /**
   * Following arc b from the vertex being explored to an unreached vertex w
   * other than t: w gets b as its parent and joins the queue.
   */
  lemma SearchReaches(a: seq<Arc>, P: seq<Parent>, M: seq<int>, paths: seq<seq<int>>,
                      queue: seq<int>, done: set<int>, cur: int, s: int, t: int, b: int)
    requires Searching(a, P, M, paths, queue, done, cur, s, t) && Paired(a)
    requires 0 <= cur < |P| && P[cur] != Unreached
    requires 0 <= b < |a| && a[b].from == cur && ResCap(a[b]) > 0
    requires 0 <= a[b].to < |P| && P[a[b].to] == Unreached && a[b].to != t
    ensures Searching(a, P[a[b].to := Via(b)], M[a[b].to := Min(M[cur], ResCap(a[b]))],
                      paths[a[b].to := paths[cur] + [b]], queue + [a[b].to], done, cur, s, t)
  {
    TreeGrows(a, P, M, paths, s, cur, b);
    QueueGrows(P, queue, done, cur, t, a[b].to, Via(b));
    ExploredGrows(a, P, done, a[b].to, Via(b));
  }

  /** Queueing a newly reached vertex keeps the queue's invariant (a step of `SearchReaches`). */
  lemma QueueGrows(P: seq<Parent>, queue: seq<int>, done: set<int>, cur: int, t: int, w: int, pw: Parent)
    requires QueueOK(P, queue, done, cur, t) && (forall u :: u in done ==> 0 <= u < |P| && P[u] != Unreached)
    requires 0 <= cur < |P| && P[cur] != Unreached
    requires 0 <= w < |P| && P[w] == Unreached && w != t && pw != Unreached
    ensures QueueOK(P[w := pw], queue + [w], done, cur, t)
    ensures forall u :: u in done ==> 0 <= u < |P| && P[w := pw][u] != Unreached
  {
    var q := queue + [w];
    forall k, l | 0 <= k < l < |q| ensures q[k] != q[l] {
      if l < |queue| { assert q[k] == queue[k] && q[l] == queue[l]; }
      else { assert q[k] == queue[k]; }
    }
  }

  /** Reaching one more vertex keeps every explored vertex explored (a step of `SearchReaches`). */
  lemma ExploredGrows(a: seq<Arc>, P: seq<Parent>, done: set<int>, w: int, pw: Parent)
    requires Explored(a, P, done) && 0 <= w < |P| && pw != Unreached
    ensures Explored(a, P[w := pw], done)
  {
  }

  /** Reaching t through arc b completes a path of positive bottleneck retraced by the parents. */
  lemma SearchFinds(a: seq<Arc>, P: seq<Parent>, M: seq<int>, paths: seq<seq<int>>,
                    queue: seq<int>, done: set<int>, cur: int, s: int, t: int, b: int)
    requires Searching(a, P, M, paths, queue, done, cur, s, t) && Paired(a)
    requires 0 <= cur < |P| && P[cur] != Unreached
    requires 0 <= b < |a| && a[b].from == cur && ResCap(a[b]) > 0 && a[b].to == t
    ensures var p := paths[cur] + [b];
      IsPath(a, p, s, t) && ArcSimple(a, p) &&
      Min(M[cur], ResCap(a[b])) == Bottleneck(a, p) > 0 &&
      ParentChain(a, P[t := Via(b)], p, s)
  {
    assert TreeAt(a, P, M[cur], paths[cur], s, cur);
    TreeAtNew(a, P, M[cur], paths[cur], s, cur, b);
    BottleneckIsMin(a, paths[cur] + [b], s, t);
  }

  /** After all arcs of adj are scanned, and adj lists every arc leaving cur, cur is explored (the last step of `Visit`). */
  lemma SearchExplores(a: seq<Arc>, P: seq<Parent>, M: seq<int>, paths: seq<seq<int>>,
                       queue: seq<int>, done: set<int>, cur: int, s: int, t: int, adj: seq<int>)
    requires Searching(a, P, M, paths, queue, done, cur, s, t) && Scanned(a, P, adj, |adj|)
    requires 0 <= cur < |P| && P[cur] != Unreached
    requires forall i :: 0 <= i < |a| && a[i].from == cur ==> i in adj
    ensures Searching(a, P, M, paths, queue, done + {cur}, -1, s, t)
  {
    forall i | 0 <= i < |a| && a[i].from == cur && ResCap(a[i]) > 0
      ensures 0 <= a[i].to < |P| && P[a[i].to] != Unreached
    {
      var k :| 0 <= k < |adj| && adj[k] == i;
    }
  }

  /** When the queue runs empty, the reached vertices are closed and t is not among them. */
  lemma SearchFails(a: seq<Arc>, P: seq<Parent>, M: seq<int>, paths: seq<seq<int>>,
                    done: set<int>, s: int, t: int)
    requires Searching(a, P, M, paths, [], done, -1, s, t)
    ensures Separates(a, Reached(P), s, t) && NoPath(a, s, t)
  {
    ClosedNoPath(a, Reached(P), s, t);
  }

  /** Every arc joins two vertices below n. */
  ghost predicate InRange(a: seq<Arc>, n: int)
  {
    forall i :: 0 <= i < |a| ==> 0 <= a[i].from < n && 0 <= a[i].to < n
  }

  class Network {
    const x: int
    const y: int
    const v: int
    const source: int
    const sink: int
    ghost const pairs: seq<(int, int)>
    var arcs: array<Arc>
    var graph: seq<seq<int>>
    var parent: array<Parent>
    var queue: seq<int>
    var maxFlow: int
    var answer: seq<int>

    /** The network keeps the shape it was built with and a valid flow. */
    ghost predicate Valid()
      reads this`arcs, this`graph, arcs
    {
      ValidInput(x, y, pairs) && v == VertexCount(x, y) &&
      source == Source(x, y) && sink == Sink(x, y) &&
      Consistent(arcs[..], graph, x, y, pairs)
    }

    /** The construction part of `solve()`: vertices, arcs and adjacency lists. */
    constructor (x: int, y: int, pairs: seq<(int, int)>)
      requires ValidInput(x, y, pairs)
      ensures Valid() && fresh(arcs)
      ensures this.x == x && this.y == y && this.pairs == pairs
      ensures Initial(arcs[..], x, y, pairs)
      ensures forall u :: 0 <= u < v ==> graph[u] == ArcsFrom(arcs[..], u, arcs.Length)
      ensures maxFlow == 0 && answer == []
    {
      var es, g := CreateArcs(x, y, pairs);
      var a := new Arc[|es|](j requires 0 <= j < |es| => es[j]);
      assert a[..] == es;
      assert Shaped(es, x, y, pairs) && Listed(g, es) && FlowsOK(es) by {
        InitialFlows(es, x, y, pairs);
        ShapedStructure(es, x, y, pairs);
        ListedByCreation(g, es);
      }
      this.x, this.y, this.pairs := x, y, pairs;
      v, source, sink := x + y + 3, x + y + 1, x + y + 2;
      arcs, graph := a, g;
      parent, queue := new Parent[0], [];
      maxFlow, answer := 0, [];
    }

    /**
     * The three construction loops of `solve()`: for each input pair a
     * forward arc of capacity 1 and flow 0 with its reverse arc of flow 1,
     * then an arc from the source to each left vertex and an arc from each
     * right vertex to the sink, each listed under its tail.
     */
    static method CreateArcs(x: int, y: int, pairs: seq<(int, int)>) returns (es: seq<Arc>, g: seq<seq<int>>)
      requires ValidInput(x, y, pairs)
      ensures |es| == ArcCount(x, y, pairs) && Built(es, g, x, y, pairs)
    {
      es := [];
      g := seq(x + y + 3, _ => []);
      assert Built(es, g, x, y, pairs);
      es, g := CreatePairArcs(x, y, pairs, es, g);
      es, g := CreateSourceArcs(x, y, pairs, es, g);
      es, g := CreateSinkArcs(x, y, pairs, es, g);
    }

    /** The first loop of the construction: the forward and reverse arc of each input pair. */
    static method CreatePairArcs(x: int, y: int, pairs: seq<(int, int)>, es0: seq<Arc>, g0: seq<seq<int>>)
      returns (es: seq<Arc>, g: seq<seq<int>>)
      requires ValidInput(x, y, pairs) && es0 == [] && Built(es0, g0, x, y, pairs)
      ensures |es| == 2 * |pairs| && Built(es, g, x, y, pairs)
    {
      es, g := es0, g0;
      for i := 0 to |pairs|
        invariant |es| == 2 * i && Built(es, g, x, y, pairs)
      {
        var (p, q) := pairs[i];
        var n := Arc(p, q, 1, 0, true, false, NoPair);
        var n2 := Arc(q, p, 1, 1, false, false, NoPair);
        PairArcs(x, y, pairs, i);
        BuildStep(es, g, x, y, pairs, n.(other := 2 * i + 1));
        g := g[p := g[p] + [2 * i]];
        es := es + [n.(other := 2 * i + 1)];
        BuildStep(es, g, x, y, pairs, n2.(other := 2 * i));
        g := g[q := g[q] + [2 * i + 1]];
        es := es + [n2.(other := 2 * i)];
      }
    }

    /** The second loop of the construction: an arc from the source to each left vertex. */
    static method CreateSourceArcs(x: int, y: int, pairs: seq<(int, int)>, es0: seq<Arc>, g0: seq<seq<int>>)
      returns (es: seq<Arc>, g: seq<seq<int>>)
      requires ValidInput(x, y, pairs) && |es0| == 2 * |pairs| && Built(es0, g0, x, y, pairs)
      ensures |es| == 2 * |pairs| + x && Built(es, g, x, y, pairs)
    {
      es, g := es0, g0;
      var e, src := |pairs|, x + y + 1;
      for i := 1 to x + 1
        invariant |es| == 2 * e + i - 1 && Built(es, g, x, y, pairs)
      {
        BuildStep(es, g, x, y, pairs, Arc(src, i, 1, 0, true, false, NoPair));
        g := g[src := g[src] + [2 * e + i - 1]];
        es := es + [Arc(src, i, 1, 0, true, false, NoPair)];
      }
    }

    /** The third loop of the construction: an arc from each right vertex to the sink. */
    static method CreateSinkArcs(x: int, y: int, pairs: seq<(int, int)>, es0: seq<Arc>, g0: seq<seq<int>>)
      returns (es: seq<Arc>, g: seq<seq<int>>)
      requires ValidInput(x, y, pairs) && |es0| == 2 * |pairs| + x && Built(es0, g0, x, y, pairs)
      ensures |es| == ArcCount(x, y, pairs) && Built(es, g, x, y, pairs)
    {
      es, g := es0, g0;
      var e, snk := |pairs|, x + y + 2;
      for i := x + 1 to x + y + 1
        invariant |es| == 2 * e + i - 1 && Built(es, g, x, y, pairs)
      {
        BuildStep(es, g, x, y, pairs, Arc(i, snk, 1, 0, true, false, NoPair));
        g := g[i := g[i] + [2 * e + i - 1]];
        es := es + [Arc(i, snk, 1, 0, true, false, NoPair)];
      }
    }

    /**
     * `BFS()`: breadth-first search from the source over arcs of positive
     * residual capacity, recording in `parent` the arc through which each
     * vertex is first reached. Returns the bottleneck of the path it finds to
     * the sink (ghost p, retraced by the parent chain), or 0 when the sink
     * cannot be reached; the reached vertices then form a closed set.
     */
    method FindPath() returns (m: int, ghost p: seq<int>)
      requires Valid()
      modifies this`parent, this`queue
      ensures Valid() && fresh(parent) && parent.Length == v
      ensures m >= 0
      ensures m == 0 <==> NoPath(arcs[..], source, sink)
      ensures m == 0 ==> Separates(arcs[..], Reached(parent[..]), source, sink)
      ensures m > 0 ==> AugmentingPath(arcs[..], parent[..], p, m, source, sink)
    {
      assert Paired(arcs[..]) && InRange(arcs[..], v) by {
        ShapedStructure(arcs[..], x, y, pairs);
      }
      ghost var A := arcs[..];
      parent := new Parent[v](_ => Unreached);
      parent[source] := Root;
      var M := new int[v];
      M[source] := Infinity;
      queue := [source];
      ghost var done: set<int> := {};
      ghost var paths: seq<seq<int>> := seq(v, _ => []);
      SearchStarts(A, parent[..], M[..], paths, source, sink);
      while queue != []
        invariant fresh(parent) && parent.Length == v && fresh(M) && M.Length == v
        invariant Searching(A, parent[..], M[..], paths, queue, done, -1, source, sink)
        invariant |done| <= v && arcs[..] == A
        decreases v - |done|
      {
        var found, a;
        found, a, paths := Visit(M, A, paths, done);
        if found {
          m, p := M[sink], paths[sink];
          FoundPath(A, arcs[..], parent[..], p, m, source, sink);
          StillConsistent(A, arcs[..], graph, x, y, pairs);
          return;
        }
        OneMore(done, a, v);
        done := done + {a};
      }
      m, p := 0, [];
      SearchFails(A, parent[..], M[..], paths, done, source, sink);
      StillConsistent(A, arcs[..], graph, x, y, pairs);
    }

    /**
     * One round of the outer loop of `BFS()`: take the vertex a at the head of
     * the queue and scan its adjacency list. Every arc of positive residual
     * capacity that ends at a vertex without a parent gives that vertex its
     * parent and bottleneck and queues it, unless the vertex is the sink,
     * which ends the search with `found`; otherwise a joins the explored set.
     */
    method Visit(M: array<int>, ghost A: seq<Arc>, ghost paths0: seq<seq<int>>, ghost done: set<int>)
      returns (found: bool, a: int, ghost paths: seq<seq<int>>)
      requires A == arcs[..] && Paired(A) && InRange(A, v) && Listed(graph, A)
      requires 0 <= source < v && 0 <= sink < v && |graph| == v
      requires parent.Length == v && M.Length == v && queue != []
      requires Searching(A, parent[..], M[..], paths0, queue, done, -1, source, sink)
      modifies parent, M, this`queue
      ensures |paths| == v && arcs[..] == A
      ensures found ==> M[sink] > 0 && AugmentingPath(A, parent[..], paths[sink], M[sink], source, sink)
      ensures !found ==>
        0 <= a < v && a !in done &&
        Searching(A, parent[..], M[..], paths, queue, done + {a}, -1, source, sink)
    {
      SearchDequeues(A, parent[..], M[..], paths0, queue, done, source, sink);
      a := queue[0];
      queue := queue[1..];
      paths := paths0;
      var adj := graph[a];
      for j := 0 to |adj|
        invariant Searching(A, parent[..], M[..], paths, queue, done, a, source, sink)
        invariant parent[a] != Unreached
        invariant Scanned(A, parent[..], adj, j)
      {
        var b := arcs[adj[j]];
        if ResCap(b) > 0 && parent[b.to] == Unreached {
          ghost var P0, M0 := parent[..], M[..];
          parent[b.to] := Via(adj[j]);
          M[b.to] := Min(M[b.from], ResCap(b));
          assert parent[..] == P0[b.to := Via(adj[j])];
          assert M[..] == M0[b.to := Min(M0[a], ResCap(b))];
          if b.to != sink {
            ScannedGrows(A, P0, adj, j, b.to, Via(adj[j]));
            SearchReaches(A, P0, M0, paths, queue, done, a, source, sink, adj[j]);
            paths := paths[b.to := paths[a] + [adj[j]]];
            queue := queue + [b.to];
          } else {
            SearchFinds(A, P0, M0, paths, queue, done, a, source, sink, adj[j]);
            paths := paths[sink := paths[a] + [adj[j]]];
            return true, a, paths;
          }
        } else {
          ScannedNext(A, parent[..], adj, j);
        }
      }
      forall i | 0 <= i < |A| && A[i].from == a
        ensures i in adj
      {
        assert ListedAt(graph, A, i);
      }
      SearchExplores(A, parent[..], M[..], paths, queue, done, a, source, sink, adj);
      found := false;
    }

    /**
     * The walk of `maxFlow()` back from the sink along `parent[]`: each arc
     * of the path BFS found gets m more units of flow and its paired arc m
     * fewer; after each step the walk moves to the parent arc of the tail and,
     * when that is an unsaved arc between a left and a right vertex, appends
     * it to `answer` and marks it saved. The loop test `b.to != source` holds
     * exactly until the walk reaches the sentinel at the source, since no arc
     * of the network enters the source.
     */
    method Augment(m: int, ghost p: seq<int>)
      requires Valid() && parent.Length == v
      requires AugmentingPath(arcs[..], parent[..], p, m, source, sink)
      requires AnswerOK(arcs[..], answer, source, sink)
      modifies arcs, this`answer
      ensures Valid() && |p| >= 1
      ensures Augmented(old(arcs[..]), arcs[..], p, m, Recorded(old(arcs[..]), p[..|p| - 1], source, sink))
      ensures answer == old(answer) + Recorded(old(arcs[..]), p[..|p| - 1], source, sink)
      ensures forall S :: Sum(arcs[..], Net(S)) == Sum(old(arcs[..]), Net(S)) + Across(m, S, source, sink)
      ensures AnswerOK(arcs[..], answer, source, sink)
    {
      ghost var A := arcs[..];
      ghost var n := |p|;
      ghost var ans0 := answer;
      assert Paired(A) && InRange(A, v) && forall i :: 0 <= i < |A| ==> A[i].capacity == 1 by {
        ShapedStructure(A, x, y, pairs);
      }
      BottleneckIsMin(A, p, source, sink);
      WalkStarts(A, ans0, p, m, source, sink);
      Walk(m, p, A, ans0);
      assert p[0..] == p && p[0..n - 1] == p[..n - 1];
      AugmentedConsistent(A, arcs[..], p, m, Recorded(A, p[..n - 1], source, sink), graph, x, y, pairs);
      AugmentedAnswer(A, arcs[..], p, m, ans0, source, sink);
    }

    /**
     * The loop of the walk, from the last arc of p back to the sentinel at
     * the source; see Augment.
     */
    method Walk(m: int, ghost p: seq<int>, ghost A: seq<Arc>, ghost ans0: seq<int>)
      requires 0 <= source < parent.Length && 0 <= sink < parent.Length
      requires Paired(A) && IsPath(A, p, source, sink) && ArcSimple(A, p)
      requires ParentChain(A, parent[..], p, source)
      requires Walking(A, arcs[..], ans0, answer, p, |p|, m, source, sink)
      modifies arcs, this`answer
      ensures Walking(A, arcs[..], ans0, answer, p, 0, m, source, sink)
    {
      ghost var j := |p|;
      var b := parent[sink];
      while b != Root
        invariant 0 <= j <= |p| && ParentChain(A, parent[..], p, source)
        invariant b == if j == 0 then Root else Via(p[j - 1])
        invariant Walking(A, arcs[..], ans0, answer, p, j, m, source, sink)
        decreases j
      {
        WalkStep(A, arcs[..], ans0, answer, p, j, m, source, sink);
        ParentOfTail(A, parent[..], p, j, source, sink);
        var from := arcs[b.arc].from;
        PushArc(b.arc, m);
        b := parent[from];
        if b.Via? && Eligible(arcs[b.arc], source, sink) {
          Record(b.arc);
        }
        j := j - 1;
      }
    }

    /** One push of the walk: arc id gains m units of flow and its paired arc, if any, loses m. */
    method PushArc(id: int, m: int)
      requires 0 <= id < arcs.Length && (arcs[id].other == NoPair || 0 <= arcs[id].other < arcs.Length)
      modifies arcs
      ensures arcs[..] == Push(old(arcs[..]), id, m)
    {
      var e := arcs[id];
      arcs[id] := e.(flow := e.flow + m);
      if e.other != NoPair {
        arcs[e.other] := arcs[e.other].(flow := arcs[e.other].flow - m);
      }
    }

    /** Appending arc k to `answer` and marking it saved. */
    method Record(k: int)
      requires 0 <= k < arcs.Length
      modifies arcs, this`answer
      ensures answer == old(answer) + [k]
      ensures arcs[..] == old(arcs[..])[k := old(arcs[k]).(saved := true)]
    {
      answer := answer + [k];
      arcs[k] := arcs[k].(saved := true);
    }

    /**
     * `maxFlow()`: starting from flow value 0, repeat BFS and augment along
     * the path it finds, adding its bottleneck to the flow value, until BFS
     * finds no path. The arcs then carry a flow of value `maxFlow` from the
     * source to the sink, no augmenting path is left, and the vertices BFS
     * reached last form a closed set that holds the source but not the sink.
     */
    method MaxFlow()
      requires Valid() && Initial(arcs[..], x, y, pairs) && answer == []
      modifies arcs, this`parent, this`queue, this`maxFlow, this`answer
      ensures Valid() && parent.Length == v
      ensures FlowValue(arcs[..], maxFlow, source, sink)
      ensures 0 <= maxFlow <= x && maxFlow <= y
      ensures AnswerOK(arcs[..], answer, source, sink)
      ensures NoPath(arcs[..], source, sink)
      ensures Separates(arcs[..], Reached(parent[..]), source, sink)
    {
      maxFlow := 0;
      InitialFlows(arcs[..], x, y, pairs);
      Rounds();
    }

    /** The loop of `maxFlow()`: search, and augment along each path found, until no path is left. */
    method Rounds()
      requires Valid() && FlowValue(arcs[..], maxFlow, source, sink)
      requires 0 <= maxFlow <= x && maxFlow <= y && AnswerOK(arcs[..], answer, source, sink)
      modifies arcs, this`parent, this`queue, this`maxFlow, this`answer
      ensures Valid() && parent.Length == v
      ensures FlowValue(arcs[..], maxFlow, source, sink)
      ensures 0 <= maxFlow <= x && maxFlow <= y
      ensures AnswerOK(arcs[..], answer, source, sink)
      ensures NoPath(arcs[..], source, sink)
      ensures Separates(arcs[..], Reached(parent[..]), source, sink)
    {
      while true
        invariant Valid()
        invariant FlowValue(arcs[..], maxFlow, source, sink)
        invariant 0 <= maxFlow <= x && maxFlow <= y
        invariant AnswerOK(arcs[..], answer, source, sink)
        decreases x - maxFlow
      {
        var m, p := FindPath();
        if m == 0 {
          break;
        }
        maxFlow := maxFlow + m;
        ghost var A := arcs[..];
        Augment(m, p);
        FlowValueAdds(A, arcs[..], maxFlow - m, m, source, sink);
        FlowBound(arcs[..], x, y, pairs, maxFlow);
      }
    }

    /**
     * The loop of `solve()` over `answer` that keeps the arcs with
     * `flow > 0`, giving the matched pairs and their number k.
     */
    method Extract() returns (matching: seq<(int, int)>, k: int)
      requires forall i :: 0 <= i < |answer| ==> 0 <= answer[i] < arcs.Length
      ensures matching == Endpoints(arcs[..], Carrying(arcs[..], answer)) && k == |matching|
    {
      matching, k := [], 0;
      ghost var c: seq<int> := [];
      for i := 0 to |answer|
        invariant c == Carrying(arcs[..], answer[..i])
        invariant matching == Endpoints(arcs[..], c) && k == |matching|
      {
        var e := arcs[answer[i]];
        assert answer[..i + 1][..i] == answer[..i];
        if e.flow > 0 {
          k := k + 1;
          matching := matching + [(e.from, e.to)];
          c := c + [answer[i]];
        }
      }
      assert answer[..|answer|] == answer;
    }
  }

  /**
   * Walking back along the parent chain of p: the parent of the tail of p[j-1]
   * is p[j-2], or the sentinel when p[j-1] is the first arc of p.
   */
  lemma ParentOfTail(a: seq<Arc>, P: seq<Parent>, p: seq<int>, j: int, s: int, t: int)
    requires IsPath(a, p, s, t) && ParentChain(a, P, p, s) && 1 <= j <= |p|
    ensures 0 <= a[p[j - 1]].from < |P|
    ensures P[a[p[j - 1]].from] == if j == 1 then Root else Via(p[j - 2])
  {
    if j >= 2 {
      assert a[p[j - 2]].to == a[p[j - 1]].from;
    }
  }

  /**
   * A flow of value f from the source to the sink with flows between 0 and 1
   * is at most x, the number of arcs leaving the source, and at most y, the
   * number of arcs entering the sink.
   */
  lemma FlowBound(a: seq<Arc>, x: int, y: int, pairs: seq<(int, int)>, f: int)
    requires ValidInput(x, y, pairs) && Shaped(a, x, y, pairs) && FlowsOK(a)
    requires FlowValue(a, f, Source(x, y), Sink(x, y))
    ensures f <= x && f <= y
  {
    ShapedStructure(a, x, y, pairs);
    ShapedDegrees(a, x, y, pairs);
    forall i | 0 <= i < |a| ensures 0 <= a[i].flow <= 1 {
      assert FlowOKAt(a, i);
    }
    NetBounds(a, {Source(x, y)});
    NetBounds(a, {Sink(x, y)});
    assert Sum(a, Net({Source(x, y)})) == -f;
    assert Sum(a, Net({Sink(x, y)})) == f;
  }

  /**
   * The two arcs that input pair i gives, read off `InitialArc` once so that
   * the loop of `CreatePairArcs` does not unfold it at every step.
   */
  lemma PairArcs(x: int, y: int, pairs: seq<(int, int)>, i: int)
    requires 0 <= i < |pairs| && 0 <= x && 0 <= y
    ensures InitialArc(x, y, pairs, 2 * i) == Arc(pairs[i].0, pairs[i].1, 1, 0, true, false, 2 * i + 1)
    ensures InitialArc(x, y, pairs, 2 * i + 1) == Arc(pairs[i].1, pairs[i].0, 1, 1, false, false, 2 * i)
  {
    assert (2 * i) / 2 == i && (2 * i) % 2 == 0;
    assert (2 * i + 1) / 2 == i && (2 * i + 1) % 2 == 1;
  }

  /**
   * The first |es| arcs are built as the construction creates them, and the
   * adjacency lists g list them by tail in creation order.
   */
  ghost predicate Built(es: seq<Arc>, g: seq<seq<int>>, x: int, y: int, pairs: seq<(int, int)>)
  {
    |es| <= ArcCount(x, y, pairs) &&
    (forall j :: 0 <= j < |es| ==> es[j] == InitialArc(x, y, pairs, j)) &&
    |g| == VertexCount(x, y) &&
    (forall u :: 0 <= u < |g| ==> g[u] == ArcsFrom(es, u, |es|))
  }

  /** Creating the next arc and listing it under its tail keeps the construction on track. */
  lemma BuildStep(es: seq<Arc>, g: seq<seq<int>>, x: int, y: int, pairs: seq<(int, int)>, e: Arc)
    requires Built(es, g, x, y, pairs) && |es| < ArcCount(x, y, pairs)
    requires e == InitialArc(x, y, pairs, |es|) && 0 <= e.from < |g|
    ensures Built(es + [e], g[e.from := g[e.from] + [|es|]], x, y, pairs)
  {
    AppendArc(es, g, e);
  }

  /**
   * Appending arc e to the arcs built so far appends its id to the adjacency
   * list of its tail and to no other.
   */
  lemma AppendArc(es: seq<Arc>, g: seq<seq<int>>, e: Arc)
    requires 0 <= e.from < |g|
    requires forall u :: 0 <= u < |g| ==> g[u] == ArcsFrom(es, u, |es|)
    ensures forall u :: 0 <= u < |g| ==>
              g[e.from := g[e.from] + [|es|]][u] == ArcsFrom(es + [e], u, |es + [e]|)
  {
    forall u | 0 <= u < |g|
      ensures g[e.from := g[e.from] + [|es|]][u] == ArcsFrom(es + [e], u, |es + [e]|)
    {
      ArcsFromPrefix(es + [e], es, u, |es|);
    }
  }

  lemma {:induction false} ArcsFromPrefix(a: seq<Arc>, b: seq<Arc>, u: int, n: int)
    requires 0 <= n <= |a| && n <= |b| && a[..n] == b[..n]
    ensures ArcsFrom(a, u, n) == ArcsFrom(b, u, n)
  {
    if n > 0 {
      assert a[n - 1] == a[..n][n - 1] == b[..n][n - 1] == b[n - 1];
      assert a[..n - 1] == a[..n][..n - 1] == b[..n][..n - 1] == b[..n - 1];
      ArcsFromPrefix(a, b, u, n - 1);
    }
  }
}
