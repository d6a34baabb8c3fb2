/**
 * Two concrete runs: the four-vertex graph with edges (0,1,1), (0,2,4), (1,2,2),
 * (1,3,6), (2,3,3) from source 0, and the same graph with an isolated fifth
 * vertex. Whatever finished state the engine reaches on them is pinned down.
 */
module Scenarios {
  import opened Wrappers
  import opened Graphs
  import opened Distances
  import opened Relaxation

  function Sample(): Graph
  {
    Graph(4, [[Edge(0, 1, 1), Edge(0, 2, 4)], [Edge(1, 2, 2), Edge(1, 3, 6)], [Edge(2, 3, 3)], []])
  }

  function SampleWithIsolated(): Graph
  {
    Graph(5, Sample().adj + [[]])
  }

  /** On the sample graph the distances are 0, 1, 3 and 6. */
  lemma SampleDistances(dist: seq<Dist>, edge: seq<Option<Edge>>, rank: seq<nat>)
    requires Final(Sample(), 0, dist, edge, rank)
    ensures dist == [Fin(0), Fin(1), Fin(3), Fin(6)]
  {
    var g := Sample();
    var expected := [Fin(0), Fin(1), Fin(3), Fin(6)];
    assert Certificate(g, expected) by {
      forall u | 0 <= u < |g.adj| ensures Relaxed(g, expected, u) { }
    }
    var p1 := [Edge(0, 1, 1)];
    var p2 := p1 + [Edge(1, 2, 2)];
    var p3 := p2 + [Edge(2, 3, 3)];
    assert IsPath(g, 0, 1, p1) && IsPath(g, 0, 2, p2) && IsPath(g, 0, 3, p3);
    assert Weight(p1) == 1 && Weight(p2) == 3 && Weight(p3) == 6;
    var paths := [[], p1, p2, p3];
    forall t | 0 <= t < 4 ensures dist[t] == expected[t] {
      // the walk above bounds dist[t] from above; the tree path bounds it from below
      LowerBound(g, dist, 0, t, paths[t]);
      TreePathSound(g, 0, dist, edge, rank, t);
      LowerBound(g, expected, 0, t, TreePath(g, 0, dist, edge, rank, t));
      assert IsPath(g, 0, t, paths[t]) && Weight(paths[t]) == expected[t].n;
    }
  }

  /** On the sample graph edgeTo is forced: every parent edge must account exactly for the
      distance of its endpoint, and only one incoming edge does. */
  lemma SampleParents(dist: seq<Dist>, edge: seq<Option<Edge>>, rank: seq<nat>)
    requires Final(Sample(), 0, dist, edge, rank)
    ensures edge == [None, Some(Edge(0, 1, 1)), Some(Edge(1, 2, 2)), Some(Edge(2, 3, 3))]
  {
    var g := Sample();
    SampleDistances(dist, edge, rank);
    var expected := [None, Some(Edge(0, 1, 1)), Some(Edge(1, 2, 2)), Some(Edge(2, 3, 3))];
    forall x | 0 <= x < 4 ensures edge[x] == expected[x] {
      assert ParentOk(g, 0, dist, edge, rank, x);
      if x != 0 {
        var e := edge[x].value;
        assert e in g.adj[e.from];
      }
    }
  }

  /** pathTo(3) on the sample graph: (0,1,1), (1,2,2), (2,3,3). */
  lemma SamplePath(dist: seq<Dist>, edge: seq<Option<Edge>>, rank: seq<nat>)
    requires Final(Sample(), 0, dist, edge, rank)
    ensures dist[3] == Fin(6)
    ensures TreePath(Sample(), 0, dist, edge, rank, 3) == [Edge(0, 1, 1), Edge(1, 2, 2), Edge(2, 3, 3)]
  {
    var g := Sample();
    SampleDistances(dist, edge, rank);
    SampleParents(dist, edge, rank);
    assert TreePath(g, 0, dist, edge, rank, 0) == [];
    assert TreePath(g, 0, dist, edge, rank, 1) == [Edge(0, 1, 1)];
    assert TreePath(g, 0, dist, edge, rank, 2) == [Edge(0, 1, 1), Edge(1, 2, 2)];
  }

  /** An isolated vertex is never reached: its distance stays infinite and it has no path. */
  lemma IsolatedUnreached(dist: seq<Dist>, edge: seq<Option<Edge>>, rank: seq<nat>)
    requires Final(SampleWithIsolated(), 0, dist, edge, rank)
    ensures dist[4] == Inf && !Reachable(SampleWithIsolated(), 0, 4)
  {
    var g := SampleWithIsolated();
    assert ParentOk(g, 0, dist, edge, rank, 4);
    ShortestDistances(g, 0, dist, edge, rank, 4);
  }
}
