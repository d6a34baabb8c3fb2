/**
 * DijkstraSP: single-source shortest paths over an edge-weighted digraph with
 * non-negative weights. The constructor scans for negative edges, validates the
 * source, initialises distTo and edgeTo, and runs the greedy loop driven by the
 * indexed min-priority queue; distTo, hasPathTo and pathTo query the result.
 */
module ShortestPaths {
  import opened Wrappers
  import opened Graphs
  import opened Distances
  import opened PriorityQueue
  import opened Relaxation

  /** The two IllegalArgumentException cases of the engine. */
  datatype SPError = NegativeWeight(edge: Edge) | InvalidVertex(v: int)

  /** `e` is the first edge of edges() with a negative weight. */
  ghost predicate FirstNegative(g: Graph, e: Edge)
  {
    exists i :: 0 <= i < |Edges(g)| && Edges(g)[i] == e && e.weight < 0 &&
      forall j :: 0 <= j < i ==> Edges(g)[j].weight >= 0
  }

  /** The scan over edges() that rejects a negative weight: returns the first such edge, if any. */
  method FindNegativeEdge(g: Graph) returns (bad: Option<Edge>)
    ensures bad.None? <==> g.NonNegative()
    ensures bad.Some? ==> FirstNegative(g, bad.value)
  {
    var es := Edges(g);
    NonNegativeEdges(g);
    for i := 0 to |es|
      invariant forall j :: 0 <= j < i ==> es[j].weight >= 0
    {
      if es[i].weight < 0 {
        return Some(es[i]);
      }
    }
    return None;
  }

  /** Builds the engine, or reports why the Java constructor would throw: a negative edge is
      reported before the source is validated, and nothing is built on either error. */
  method Create(g: Graph, s: int) returns (r: Result<DijkstraSP, SPError>)
    requires g.Valid()
    ensures !g.NonNegative() ==> r.Failure? && r.error.NegativeWeight? && FirstNegative(g, r.error.edge)
    ensures g.NonNegative() && !(0 <= s < g.V) ==> r.Failure? && r.error == InvalidVertex(s)
    ensures g.NonNegative() && 0 <= s < g.V ==>
      r.Success? && fresh(r.value) && r.value.Valid() && r.value.graph == g && r.value.source == s
  {
    var bad := FindNegativeEdge(g);
    if bad.Some? {
      return Failure(NegativeWeight(bad.value));
    }
    if s < 0 || s >= g.V {
      return Failure(InvalidVertex(s));
    }
    var sp := new DijkstraSP(g, s);
    return Success(sp);
  }

  class DijkstraSP {
    ghost const graph: Graph
    ghost const source: int
    const distTo: array<Dist>
    const edgeTo: array<Option<Edge>>
    const pq: IndexMinPQ
    /** Proof-only: strictly increases along edgeTo; see Relaxation. */
    ghost var rank: seq<nat>
    /** Proof-only: the vertices delMin has returned so far. */
    ghost var done: set<int>

    ghost function Snapshot(): State
      reads this, distTo, edgeTo, pq
    {
      State(distTo[..], edgeTo[..], rank, done, pq.keys)
    }

    /** The finished engine: the arrays hold a shortest-path tree with its relaxation certificate. */
    ghost predicate Valid()
      reads this, distTo, edgeTo
    {
      distTo.Length == graph.V && edgeTo.Length == graph.V &&
      Final(graph, source, distTo[..], edgeTo[..], rank)
    }

    /** The constructor once the negative-weight scan and the source check have passed. */
    constructor (g: Graph, s: int)
      requires Input(g, s)
      ensures Valid() && graph == g && source == s
    {
      graph, source := g, s;
      distTo := new Dist[g.V];
      edgeTo := new Option<Edge>[g.V](_ => None);
      pq := new IndexMinPQ(g.V);
      rank := seq(g.V, _ => 0);
      done := {};
      new;
      for v := 0 to g.V
        modifies distTo
        invariant forall x :: 0 <= x < v ==> distTo[x] == Inf
      {
        distTo[v] := Inf;
      }
      distTo[s] := Fin(0);
      pq.Insert(s, 0);
      assert Snapshot() == Initial(g.V, s);
      InitialInv(g, s);
      while !pq.IsEmpty()
        invariant pq.Valid() && pq.maxN == g.V
        invariant LoopInv(g, s, Snapshot())
        decreases AllVertices(g.V) - done
      {
        ghost var before := Snapshot();
        var v := pq.DelMin();
        done := done + {v};
        assert Snapshot() == before.(keys := before.keys - {v}, done := before.done + {v});
        PopInv(g, s, before, v);
        FinalizeShrinks(g.V, before.done, v);
        RelaxEdgesOf(g, v);
      }
      FinishInv(g, s, Snapshot());
    }

    /** The body of the greedy loop after delMin returned v: relax every edge of adj(v), in
        adjacency order. */
    method RelaxEdgesOf(g: Graph, v: int)
      requires g == graph && 0 <= v < g.V
      requires pq.Valid() && pq.maxN == g.V && distTo.Length == g.V && edgeTo.Length == g.V
      requires ScanInv(g, source, Snapshot(), v, 0)
      modifies this, distTo, edgeTo, pq
      ensures pq.Valid() && done == old(done)
      ensures Snapshot() == RelaxAll(old(Snapshot()), g.adj[v])
      ensures LoopInv(g, source, Snapshot())
    {
      ghost var st0 := Snapshot();
      var adj := g.adj[v];
      for k := 0 to |adj|
        invariant pq.Valid() && done == old(done)
        invariant ScanInv(g, source, Snapshot(), v, k)
        invariant Snapshot() == RelaxAll(st0, adj[..k])
      {
        RelaxInv(g, source, Snapshot(), v, k);
        Relax(adj[k]);
        assert adj[..k + 1][..k] == adj[..k];
      }
      assert adj[..|adj|] == adj;
      ScanDoneInv(g, source, Snapshot(), v);
    }

    /** relax(e): a strict improvement of distTo[e.to] through e updates distTo and edgeTo at e.to
        and decreases or inserts its queue key; nothing else changes. */
    method Relax(e: Edge)
      requires 0 <= e.from < distTo.Length && 0 <= e.to < distTo.Length && e.weight >= 0
      requires edgeTo.Length == distTo.Length == |rank| && pq.Valid() && pq.maxN == distTo.Length
      requires forall q :: q in pq.keys ==> 0 <= q < distTo.Length && distTo[q] == Fin(pq.keys[q])
      modifies this, distTo, edgeTo, pq
      ensures pq.Valid()
      ensures Snapshot() == RelaxStep(old(Snapshot()), e)
    {
      var v, w := e.from, e.to;
      var d := Add(distTo[v], e.weight);
      if Less(d, distTo[w]) {
        distTo[w] := d;
        edgeTo[w] := Some(e);
        rank := rank[w := rank[v] + 1];
        if pq.Contains(w) {
          pq.DecreaseKey(w, d.n);
        } else {
          pq.Insert(w, d.n);
        }
      }
    }

    /** validateVertex(v): None when v is a vertex of the graph, the error otherwise. */
    function ValidateVertex(v: int): (r: Option<SPError>)
      reads this, distTo
      requires distTo.Length == graph.V
      ensures r.None? <==> 0 <= v < graph.V
      ensures r.Some? ==> r.value == InvalidVertex(v)
    {
      if v < 0 || v >= distTo.Length then Some(InvalidVertex(v)) else None
    }

    /** distTo(v): the shortest-path distance from the source, infinite when v is unreachable. */
    function DistTo(v: int): (r: Result<Dist, SPError>)
      reads this, distTo, edgeTo
      requires Valid()
      ensures r.Failure? <==> !(0 <= v < graph.V)
      ensures r.Failure? ==> r.error == InvalidVertex(v)
      ensures r.Success? ==> Optimal(graph, source, v, r.value)
      ensures v == source ==> r == Success(Fin(0))
    {
      match ValidateVertex(v)
      case Some(err) => Failure(err)
      case None =>
        ShortestDistances(graph, source, distTo[..], edgeTo[..], rank, v);
        Success(distTo[v])
    }

    /** hasPathTo(v): whether v is reachable, which is whether distTo(v) is finite. */
    function HasPathTo(v: int): (r: Result<bool, SPError>)
      reads this, distTo, edgeTo
      requires Valid()
      ensures r.Failure? <==> !(0 <= v < graph.V)
      ensures r.Failure? ==> r.error == InvalidVertex(v)
      ensures r.Success? ==> (r.value <==> Reachable(graph, source, v))
      ensures r.Success? ==> (r.value <==> DistTo(v).value.Fin?)
    {
      match ValidateVertex(v)
      case Some(err) => Failure(err)
      case None =>
        ShortestDistances(graph, source, distTo[..], edgeTo[..], rank, v);
        Success(distTo[v].Fin?)
    }

    /** pathTo(v): nothing for an unreachable vertex; otherwise the edges found by walking edgeTo
        back from v, pushed on a stack so that they come out source first. */
    method PathTo(v: int) returns (r: Result<Option<seq<Edge>>, SPError>)
      requires Valid()
      ensures r.Failure? <==> !(0 <= v < graph.V)
      ensures r.Failure? ==> r.error == InvalidVertex(v)
      ensures r.Success? ==> (r.value.None? <==> !Reachable(graph, source, v))
      ensures r.Success? && r.value.Some? ==>
        && distTo[v].Fin?
        && r.value.value == TreePath(graph, source, distTo[..], edgeTo[..], rank, v)
        && IsPath(graph, source, v, r.value.value)
        && Weight(r.value.value) == distTo[v].n
      ensures v == source ==> r == Success(Some([]))
    {
      var invalid := ValidateVertex(v);
      if invalid.Some? {
        return Failure(invalid.value);
      }
      var has := HasPathTo(v);
      if !has.value {
        return Success(None);
      }
      ghost var dist, edge := distTo[..], edgeTo[..];
      var path: seq<Edge> := [];
      ghost var u := v;
      var e := edgeTo[v];
      while e.Some?
        invariant 0 <= u < graph.V && distTo[u].Fin? && e == edgeTo[u]
        invariant TreePath(graph, source, dist, edge, rank, v) == TreePath(graph, source, dist, edge, rank, u) + path
        decreases if e.Some? then rank[u] + 1 else 0
      {
        assert ParentOk(graph, source, dist, edge, rank, u);
        var from := e.value.from;
        path := [e.value] + path;
        u := from;
        e := edgeTo[from];
      }
      assert ParentOk(graph, source, dist, edge, rank, u);
      TreePathSound(graph, source, dist, edge, rank, v);
      return Success(Some(path));
    }
  }
}
