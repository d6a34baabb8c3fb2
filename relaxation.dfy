/**
 * The greedy relaxation loop of DijkstraSP, on values. A State is a snapshot of
 * everything the loop changes: distTo, edgeTo, the queue's keys, and two ghost
 * records the proof needs, the set of finalized vertices (those delMin has
 * returned) and a rank per vertex that strictly grows along edgeTo, so that
 * walking edgeTo back to the source terminates.
 *
 * The loop invariant is LoopInv; while the edges of a just-finalized vertex v are
 * being relaxed it is ScanInv. The lemmas below show that initialisation, delMin,
 * each relaxation and the end of a scan keep them, and that on an empty queue
 * they yield Final: a shortest-path tree together with the relaxation
 * certificate, from which optimality follows.
 */
module Relaxation {
  import opened Wrappers
  import opened Graphs
  import opened Distances

  datatype State = State(dist: seq<Dist>, edge: seq<Option<Edge>>, rank: seq<nat>, done: set<int>, keys: map<int, nat>)

  /** A graph the engine accepts, and a source in range. */
  ghost predicate Input(g: Graph, s: int)
  {
    g.Valid() && g.NonNegative() && 0 <= s < g.V
  }

  /** Edge `e` offers no improvement: distTo[e.to] <= distTo[e.from] + e.weight. */
  ghost predicate EdgeRelaxed(dist: seq<Dist>, e: Edge)
  {
    0 <= e.from < |dist| && 0 <= e.to < |dist| && e.weight >= 0 &&
    AtMost(dist[e.to], Add(dist[e.from], e.weight))
  }

  /** Every outgoing edge of `u` is relaxed. */
  ghost predicate Relaxed(g: Graph, dist: seq<Dist>, u: int)
    requires 0 <= u < |g.adj|
  {
    forall k :: 0 <= k < |g.adj[u]| ==> EdgeRelaxed(dist, g.adj[u][k])
  }

  /** The relaxation certificate: no edge of the graph can improve any distance. */
  ghost predicate Certificate(g: Graph, dist: seq<Dist>)
  {
    forall u :: 0 <= u < |g.adj| ==> Relaxed(g, dist, u)
  }

  /** edgeTo[x] is consistent with distTo: the source has no parent, every other vertex has one
      exactly when its distance is finite, and that parent edge ends at x, belongs to the graph,
      accounts exactly for distTo[x] and comes from a vertex of smaller rank. */
  ghost predicate ParentOk(g: Graph, s: int, dist: seq<Dist>, edge: seq<Option<Edge>>, rank: seq<nat>, x: int)
    requires g.Valid() && |dist| == |edge| == |rank| == g.V && 0 <= x < g.V
  {
    && (x == s ==> edge[x].None?)
    && (x != s ==> (edge[x].Some? <==> dist[x].Fin?))
    && (edge[x].Some? ==>
          var e := edge[x].value;
          && e.to == x && 0 <= e.from < g.V && e in g.adj[e.from] && e.weight >= 0
          && dist[x] == Add(dist[e.from], e.weight)
          && rank[e.from] < rank[x])
  }

  ghost predicate TreeOk(g: Graph, s: int, dist: seq<Dist>, edge: seq<Option<Edge>>, rank: seq<nat>)
    requires g.Valid() && |dist| == |edge| == |rank| == g.V
  {
    forall x :: 0 <= x < g.V ==> ParentOk(g, s, dist, edge, rank, x)
  }

  /** The part of the invariant that holds at every point of the loop. */
  ghost predicate Common(g: Graph, s: int, st: State)
  {
    && Input(g, s)
    && |st.dist| == g.V && |st.edge| == g.V && |st.rank| == g.V
    && st.dist[s] == Fin(0)
    && TreeOk(g, s, st.dist, st.edge, st.rank)
    // parents are finalized vertices
    && (forall x :: 0 <= x < g.V && st.edge[x].Some? ==> st.edge[x].value.from in st.done)
    // finalized vertices have finite distances
    && (forall u :: u in st.done ==> 0 <= u < g.V && st.dist[u].Fin?)
    // the queue's key of a vertex is its distance, and finalized vertices are not queued
    && (forall q :: q in st.keys ==> 0 <= q < g.V && q !in st.done && st.dist[q] == Fin(st.keys[q]))
    // a vertex with a finite distance is finalized or queued
    && (forall x :: 0 <= x < g.V && st.dist[x].Fin? ==> x in st.done || x in st.keys)
  }

  /** Invariant of the outer loop (`while (!pq.isEmpty())`). */
  ghost predicate LoopInv(g: Graph, s: int, st: State)
  {
    && Common(g, s, st)
    && (forall u, q :: u in st.done && q in st.keys ==> st.dist[u].Fin? && st.dist[u].n <= st.keys[q])
    && (forall u :: u in st.done ==> Relaxed(g, st.dist, u))
  }

  /** Invariant of the inner loop over adj(v) after its first k edges were relaxed. */
  ghost predicate ScanInv(g: Graph, s: int, st: State, v: int, k: int)
  {
    && Common(g, s, st)
    && v in st.done && 0 <= k <= |g.adj[v]|
    && (forall u :: u in st.done ==> st.dist[u].n <= st.dist[v].n)
    && (forall q :: q in st.keys ==> st.dist[v].n <= st.keys[q])
    && (forall u :: u in st.done && u != v ==> Relaxed(g, st.dist, u))
    && (forall j :: 0 <= j < k ==> EdgeRelaxed(st.dist, g.adj[v][j]))
  }

  /** The vertices of a graph with V vertices. */
  ghost function AllVertices(V: nat): (r: set<int>)
    ensures forall x :: x in r <==> 0 <= x < V
  {
    if V == 0 then {} else AllVertices(V - 1) + {V - 1}
  }

  /** Finalizing an unfinalized vertex strictly shrinks the set of the remaining ones, which
      bounds the number of iterations of the outer loop. */
  lemma FinalizeShrinks(V: nat, done: set<int>, v: int)
    requires 0 <= v < V && v !in done
    ensures AllVertices(V) - (done + {v}) < AllVertices(V) - done
  {
  }

  /** The finished state: a shortest-path tree and the relaxation certificate. */
  ghost predicate Final(g: Graph, s: int, dist: seq<Dist>, edge: seq<Option<Edge>>, rank: seq<nat>)
  {
    && Input(g, s)
    && |dist| == g.V && |edge| == g.V && |rank| == g.V
    && dist[s] == Fin(0)
    && TreeOk(g, s, dist, edge, rank)
    && Certificate(g, dist)
  }

  /** The state right after initialisation: distTo all infinite but the source at 0,
      edgeTo all null, and the queue holding just the source with key 0. */
  function Initial(V: nat, s: int): (st: State)
  {
    State(seq(V, x => if x == s then Fin(0) else Inf), seq(V, x => None), seq(V, x => 0), {}, map[s := 0])
  }

  /** The effect of relax(e) on the state: a strict improvement of distTo[e.to] through e updates
      distTo, edgeTo, the rank and the queue key of e.to; otherwise nothing changes. */
  function RelaxStep(st: State, e: Edge): State
    requires 0 <= e.from < |st.dist| && 0 <= e.to < |st.dist| && e.weight >= 0
    requires |st.edge| == |st.rank| == |st.dist|
  {
    var d := Add(st.dist[e.from], e.weight);
    if Less(d, st.dist[e.to]) then
      State(st.dist[e.to := d], st.edge[e.to := Some(e)], st.rank[e.to := st.rank[e.from] + 1],
            st.done, st.keys[e.to := d.n])
    else st
  }

  /** The effect of relaxing the edges `es` one after the other, in order. */
  function RelaxAll(st: State, es: seq<Edge>): (r: State)
    requires forall k :: 0 <= k < |es| ==> 0 <= es[k].from < |st.dist| && 0 <= es[k].to < |st.dist| && es[k].weight >= 0
    requires |st.edge| == |st.rank| == |st.dist|
    ensures |r.dist| == |st.dist| && |r.edge| == |st.edge| && |r.rank| == |st.rank| && r.done == st.done
  {
    if es == [] then st else RelaxStep(RelaxAll(st, es[..|es| - 1]), es[|es| - 1])
  }

  /** What relax(e) does, vertex by vertex: the state changes only on a strict improvement; then
      e.to gets the improved distance, e as its parent and a queue key equal to its new distance,
      and no other vertex's distance, parent or key changes. */
  lemma RelaxEffect(st: State, e: Edge)
    requires 0 <= e.from < |st.dist| && 0 <= e.to < |st.dist| && e.weight >= 0
    requires |st.edge| == |st.rank| == |st.dist|
    ensures var st' := RelaxStep(st, e); var d := Add(st.dist[e.from], e.weight);
      && (st' != st ==> Less(d, st.dist[e.to]))
      && (Less(d, st.dist[e.to]) ==>
            && st'.dist[e.to] == d && Less(st'.dist[e.to], st.dist[e.to]) && st'.edge[e.to] == Some(e)
            && e.to in st'.keys && st'.dist[e.to] == Fin(st'.keys[e.to]))
      && |st'.dist| == |st.dist| && |st'.edge| == |st.edge| && st'.done == st.done
      && (forall x :: 0 <= x < |st.dist| && x != e.to ==> st'.dist[x] == st.dist[x] && st'.edge[x] == st.edge[x])
      && (forall q :: q != e.to ==> (q in st'.keys <==> q in st.keys))
      && (forall q :: q in st.keys && q != e.to ==> st'.keys[q] == st.keys[q])
  {
  }

  /** After initialisation the loop invariant holds. */
  lemma InitialInv(g: Graph, s: int)
    requires Input(g, s)
    ensures LoopInv(g, s, Initial(g.V, s))
  {
  }

  /** What the initial state is: distTo[s] = 0, every other distance infinite, and the queue holding
      exactly s with key 0. This only unfolds Initial; that the constructor's first lines build
      exactly this state is the assertion `Snapshot() == Initial(g.V, s)` in the constructor. */
  lemma InitialShape(V: nat, s: int)
    requires 0 <= s < V
    ensures var st := Initial(V, s);
      && |st.dist| == V && st.dist[s] == Fin(0) && (forall v :: 0 <= v < V && v != s ==> st.dist[v] == Inf)
      && st.keys == map[s := 0] && st.done == {}
  {
  }

  /** Removing a minimum-key vertex from the queue and finalizing it starts a scan of its edges. */
  lemma PopInv(g: Graph, s: int, st: State, v: int)
    requires LoopInv(g, s, st)
    requires v in st.keys && forall q :: q in st.keys ==> st.keys[v] <= st.keys[q]
    ensures ScanInv(g, s, st.(keys := st.keys - {v}, done := st.done + {v}), v, 0)
  {
  }

  /** relax(e) on the next edge of the scanned vertex keeps the scan invariant. The improving
      branch can only fire on an unfinalized vertex other than the source, so decreaseKey is
      only ever called with a strictly smaller key on a queued vertex and insert on an absent one. */
  lemma {:induction false} RelaxInv(g: Graph, s: int, st: State, v: int, k: int)
    requires ScanInv(g, s, st, v, k) && k < |g.adj[v]|
    ensures var e := g.adj[v][k];
      0 <= e.from < |st.dist| && 0 <= e.to < |st.dist| && e.weight >= 0 &&
      ScanInv(g, s, RelaxStep(st, e), v, k + 1)
  {
    var e := g.adj[v][k];
    var w := e.to;
    assert e.from == v && 0 <= w < g.V && e.weight >= 0;
    var d := Add(st.dist[v], e.weight);
    var st' := RelaxStep(st, e);
    if Less(d, st.dist[w]) {
      assert w !in st.done;
      assert w != s;
      assert d.Fin? && d.n >= st.dist[v].n;
      forall x | 0 <= x < g.V ensures ParentOk(g, s, st'.dist, st'.edge, st'.rank, x) {
        assert ParentOk(g, s, st.dist, st.edge, st.rank, x);
        if x != w && st.edge[x].Some? {
          assert st.edge[x].value.from in st.done;
        }
      }
      forall u | u in st'.done && u != v ensures Relaxed(g, st'.dist, u) {
        forall j | 0 <= j < |g.adj[u]| ensures EdgeRelaxed(st'.dist, g.adj[u][j]) {
          assert EdgeRelaxed(st.dist, g.adj[u][j]);
        }
      }
      forall j | 0 <= j < k + 1 ensures EdgeRelaxed(st'.dist, g.adj[v][j]) {
        if j < k {
          assert EdgeRelaxed(st.dist, g.adj[v][j]);
        }
      }
    }
  }

  /** Once every edge of v is relaxed, v joins the finalized vertices whose edges are all relaxed
      and every queued key is at least every finalized distance. */
  lemma ScanDoneInv(g: Graph, s: int, st: State, v: int)
    requires 0 <= v < |g.adj| && ScanInv(g, s, st, v, |g.adj[v]|)
    ensures LoopInv(g, s, st)
  {
  }

  /** When the queue is empty, the loop has produced the finished state. */
  lemma FinishInv(g: Graph, s: int, st: State)
    requires LoopInv(g, s, st) && st.keys == map[]
    ensures Final(g, s, st.dist, st.edge, st.rank)
  {
  }

  /** Under the certificate, distances cannot be beaten by any walk:
      distTo[t] <= distTo[u] + weight(p) for every walk p from u to t. */
  lemma {:induction false} LowerBound(g: Graph, dist: seq<Dist>, u: int, t: int, p: seq<Edge>)
    requires g.Valid() && |dist| == g.V && Certificate(g, dist)
    requires 0 <= u < g.V && dist[u].Fin? && IsPath(g, u, t, p)
    ensures 0 <= t < g.V && dist[t].Fin? && dist[t].n <= dist[u].n + Weight(p)
    decreases |p|
  {
    if p != [] {
      var e := p[|p| - 1];
      LowerBound(g, dist, u, e.from, p[..|p| - 1]);
      var k :| 0 <= k < |g.adj[e.from]| && g.adj[e.from][k] == e;
      assert Relaxed(g, dist, e.from);
      assert EdgeRelaxed(dist, g.adj[e.from][k]);
    }
  }

  /** The edges obtained by following edgeTo back from x to the source, in source-to-x order. */
  ghost function TreePath(g: Graph, s: int, dist: seq<Dist>, edge: seq<Option<Edge>>, rank: seq<nat>, x: int): seq<Edge>
    requires Final(g, s, dist, edge, rank) && 0 <= x < g.V && dist[x].Fin?
    decreases rank[x]
  {
    assert ParentOk(g, s, dist, edge, rank, x);
    match edge[x]
    case None => []
    case Some(e) => TreePath(g, s, dist, edge, rank, e.from) + [e]
  }

  /** In the finished state the tree path to a reached vertex is a walk from the source whose weight
      is exactly distTo[x]; the tree path to the source is empty. */
  lemma {:induction false} TreePathSound(g: Graph, s: int, dist: seq<Dist>, edge: seq<Option<Edge>>, rank: seq<nat>, x: int)
    requires Final(g, s, dist, edge, rank) && 0 <= x < g.V && dist[x].Fin?
    ensures IsPath(g, s, x, TreePath(g, s, dist, edge, rank, x))
    ensures Weight(TreePath(g, s, dist, edge, rank, x)) == dist[x].n
    ensures x == s ==> TreePath(g, s, dist, edge, rank, x) == []
    decreases rank[x]
  {
    assert ParentOk(g, s, dist, edge, rank, x);
    match edge[x]
    case None =>
    case Some(e) =>
      TreePathSound(g, s, dist, edge, rank, e.from);
      PathSnoc(g, s, e.from, TreePath(g, s, dist, edge, rank, e.from), e);
  }

  /** distTo[t] in the finished state is the shortest-path distance: finite exactly when t is
      reachable from the source, and then the least weight of any walk from the source. */
  ghost predicate Optimal(g: Graph, s: int, t: int, d: Dist)
  {
    (d.Fin? <==> Reachable(g, s, t)) && (d.Fin? ==> IsShortest(g, s, t, d.n))
  }

  lemma ShortestDistances(g: Graph, s: int, dist: seq<Dist>, edge: seq<Option<Edge>>, rank: seq<nat>, t: int)
    requires Final(g, s, dist, edge, rank) && 0 <= t < g.V
    ensures Optimal(g, s, t, dist[t])
  {
    if dist[t].Fin? {
      TreePathSound(g, s, dist, edge, rank, t);
      forall p | IsPath(g, s, t, p) ensures dist[t].n <= Weight(p) {
        LowerBound(g, dist, s, t, p);
      }
    } else if Reachable(g, s, t) {
      var p :| IsPath(g, s, t, p);
      LowerBound(g, dist, s, t, p);
    }
  }
}
