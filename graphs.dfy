/**
 * The edge-weighted digraph the engine reads: V vertices 0..V-1 and, for every
 * vertex, the sequence of its outgoing edges in the order the graph's adjacency
 * query produces them.
 */
module Graphs {

  datatype Edge = Edge(from: int, to: int, weight: int)

  datatype Graph = Graph(V: nat, adj: seq<seq<Edge>>)
  {
    /** The graph's own invariant: one adjacency sequence per vertex, every edge stored under its
        tail and pointing at a vertex in range (the graph's addEdge rejects anything else). */
    predicate Valid()
    {
      && |adj| == V
      && forall v, k :: 0 <= v < V && 0 <= k < |adj[v]| ==> adj[v][k].from == v && 0 <= adj[v][k].to < V
    }

    /** No edge with a negative weight, stated on the adjacency lists. */
    predicate NonNegative()
    {
      forall v, k :: 0 <= v < |adj| && 0 <= k < |adj[v]| ==> adj[v][k].weight >= 0
    }
  }

  /** Concatenation of the adjacency sequences, vertex by vertex. */
  function Flatten(ss: seq<seq<Edge>>): seq<Edge>
  {
    if ss == [] then [] else Flatten(ss[..|ss| - 1]) + ss[|ss| - 1]
  }

  /** All edges of the graph, in vertex-then-adjacency order (the graph's edges() query). */
  function Edges(g: Graph): (r: seq<Edge>)
    ensures forall e :: e in r <==> exists v :: 0 <= v < |g.adj| && e in g.adj[v]
  {
    forall e ensures e in Flatten(g.adj) <==> exists v :: 0 <= v < |g.adj| && e in g.adj[v] {
      FlattenMembership(g.adj, e);
    }
    Flatten(g.adj)
  }

  /** An edge is listed by Flatten exactly when it occurs in one of the sequences. */
  lemma {:induction false} FlattenMembership(ss: seq<seq<Edge>>, e: Edge)
    ensures e in Flatten(ss) <==> exists v :: 0 <= v < |ss| && e in ss[v]
  {
    if ss != [] {
      var init := ss[..|ss| - 1];
      FlattenMembership(init, e);
      if e in Flatten(ss) && e !in ss[|ss| - 1] {
        var v :| 0 <= v < |init| && e in init[v];
        assert ss[v] == init[v];
      }
      if e !in Flatten(ss) {
        forall v | 0 <= v < |ss| ensures e !in ss[v] {
          if v < |init| {
            assert ss[v] == init[v];
          }
        }
      }
    }
  }

  /** edges() lists exactly the edges of the adjacency lists. */
  lemma EdgesMembership(g: Graph, e: Edge)
    ensures e in Edges(g) <==> exists v :: 0 <= v < |g.adj| && e in g.adj[v]
  {
    FlattenMembership(g.adj, e);
  }

  /** The negative-weight scan over edges() agrees with the adjacency-list view of non-negativity. */
  lemma NonNegativeEdges(g: Graph)
    ensures g.NonNegative() <==> forall e :: e in Edges(g) ==> e.weight >= 0
  {
    if g.NonNegative() {
      forall e | e in Edges(g) ensures e.weight >= 0 {
        EdgesMembership(g, e);
        var v :| 0 <= v < |g.adj| && e in g.adj[v];
        var k :| 0 <= k < |g.adj[v]| && g.adj[v][k] == e;
      }
    } else {
      var v, k :| 0 <= v < |g.adj| && 0 <= k < |g.adj[v]| && g.adj[v][k].weight < 0;
      EdgesMembership(g, g.adj[v][k]);
    }
  }

  /** `p` is a walk from `u` to `t` along edges of `g`; defined from its last edge backwards. */
  predicate IsPath(g: Graph, u: int, t: int, p: seq<Edge>)
    decreases |p|
  {
    if p == [] then u == t
    else
      var e := p[|p| - 1];
      && 0 <= e.from < |g.adj| && e in g.adj[e.from] && e.to == t
      && IsPath(g, u, e.from, p[..|p| - 1])
  }

  /** Total weight of a sequence of edges. */
  function Weight(p: seq<Edge>): int
  {
    if p == [] then 0 else Weight(p[..|p| - 1]) + p[|p| - 1].weight
  }

  ghost predicate Reachable(g: Graph, s: int, t: int)
  {
    exists p :: IsPath(g, s, t, p)
  }

  /** `d` is the least weight of any walk from `s` to `t`, and some walk has that weight. */
  ghost predicate IsShortest(g: Graph, s: int, t: int, d: int)
  {
    && (exists p :: IsPath(g, s, t, p) && Weight(p) == d)
    && (forall p :: IsPath(g, s, t, p) ==> d <= Weight(p))
  }

  /** A path is a contiguous chain of graph edges: it starts at `u`, ends at `t`, and each edge
      begins where the previous one ended. */
  lemma {:induction false} PathIsChain(g: Graph, u: int, t: int, p: seq<Edge>)
    requires IsPath(g, u, t, p)
    ensures p == [] ==> u == t
    ensures p != [] ==> p[0].from == u && p[|p| - 1].to == t
    ensures forall i :: 0 <= i < |p| ==> 0 <= p[i].from < |g.adj| && p[i] in g.adj[p[i].from]
    ensures forall i :: 0 <= i < |p| - 1 ==> p[i].to == p[i + 1].from
    decreases |p|
  {
    if p != [] {
      var init := p[..|p| - 1];
      PathIsChain(g, u, p[|p| - 1].from, init);
      assert forall i :: 0 <= i < |init| ==> p[i] == init[i];
    }
  }

  /** Extending a path by an edge leaving its end gives a path, one edge heavier. */
  lemma PathSnoc(g: Graph, u: int, t: int, p: seq<Edge>, e: Edge)
    requires IsPath(g, u, t, p)
    requires 0 <= t < |g.adj| && e in g.adj[t] && e.from == t
    ensures IsPath(g, u, e.to, p + [e])
    ensures Weight(p + [e]) == Weight(p) + e.weight
  {
  }
}
