/**
 The undirected, unweighted graph both loaders build: an adjacency map from
 each node to its neighbours, and a (partial) map from node to its attribute
 record. `AddNode` and `AddEdge` follow the graph library's semantics. Adding
 an existing node merges the given attributes into its attribute dictionary;
 every call here passes the same keys, so the merge amounts to replacing the
 record, which is how it is modelled. Adding an edge adds its missing
 endpoints as attribute-less nodes, and adding an edge already present
 changes nothing.
 */
module Graphs {
  import opened StationTable

  type Adjacency = map<Station, set<Station>>

  datatype Graph<A> = Graph(adj: Adjacency, attrs: map<Station, A>)

  function Nodes<A>(g: Graph<A>): set<Station>
  {
    g.adj.Keys
  }

  predicate HasEdge(adj: Adjacency, u: Station, v: Station)
  {
    u in adj && v in adj[u]
  }

  /** Every neighbour is itself a node. */
  ghost predicate Closed(adj: Adjacency)
  {
    forall u, v :: HasEdge(adj, u, v) ==> v in adj
  }

  /** Every edge is stored in both directions. */
  ghost predicate Symmetric(adj: Adjacency)
  {
    forall u, v :: HasEdge(adj, u, v) ==> HasEdge(adj, v, u)
  }

  /** The representation invariant of an undirected graph. */
  ghost predicate Valid<A>(g: Graph<A>)
  {
    Closed(g.adj) && Symmetric(g.adj) && g.attrs.Keys <= g.adj.Keys
  }

  function Neighbors(adj: Adjacency, u: Station): set<Station>
  {
    if u in adj then adj[u] else {}
  }

  /** `G.add_node(n, **a)`: adds `n` if absent and sets its attributes to `a`. */
  function AddNode<A>(g: Graph<A>, n: Station, a: A): (h: Graph<A>)
    ensures Nodes(h) == Nodes(g) + {n}
    ensures h.attrs == g.attrs[n := a]
    ensures forall u, v :: HasEdge(h.adj, u, v) <==> HasEdge(g.adj, u, v)
    ensures Valid(g) ==> Valid(h)
  {
    Graph(if n in g.adj then g.adj else g.adj[n := {}], g.attrs[n := a])
  }

  /** `G.add_edge(u, v)`: joins `u` and `v` in both directions, adding them as nodes if absent. */
  function AddEdge<A>(g: Graph<A>, u: Station, v: Station): (h: Graph<A>)
    ensures Nodes(h) == Nodes(g) + {u, v}
    ensures h.attrs == g.attrs
    ensures forall x, y ::
      HasEdge(h.adj, x, y) <==> HasEdge(g.adj, x, y) || (x == u && y == v) || (x == v && y == u)
    ensures Valid(g) ==> Valid(h)
  {
    var adj1 := g.adj[u := Neighbors(g.adj, u) + {v}];
    Graph(adj1[v := Neighbors(adj1, v) + {u}], g.attrs)
  }

  /** An edge has no direction: adding (u, v) is adding (v, u). */
  lemma AddEdgeUndirected<A>(g: Graph<A>, u: Station, v: Station)
    ensures AddEdge(g, u, v) == AddEdge(g, v, u)
  {
    var h, h' := AddEdge(g, u, v), AddEdge(g, v, u);
    forall x | x in h.adj ensures x in h'.adj && h.adj[x] == h'.adj[x] {
      assert forall y :: y in h.adj[x] <==> HasEdge(h.adj, x, y);
      assert forall y :: y in h'.adj[x] <==> HasEdge(h'.adj, x, y);
    }
    assert h.adj == h'.adj;
  }

  /** Adding an edge that is already present in a well-formed graph is a no-op. */
  lemma AddEdgeIdempotent<A>(g: Graph<A>, u: Station, v: Station)
    requires Valid(g) && HasEdge(g.adj, u, v)
    ensures AddEdge(g, u, v) == g
  {
    var h := AddEdge(g, u, v);
    assert HasEdge(g.adj, v, u);
    forall x | x in h.adj ensures x in g.adj && h.adj[x] == g.adj[x] {
      assert forall y :: y in h.adj[x] <==> HasEdge(h.adj, x, y);
      assert forall y :: y in g.adj[x] <==> HasEdge(g.adj, x, y);
    }
    assert h.adj == g.adj;
  }

  /** Entries `i` and `i + 1` of `stations` are `u` and `v`, in either order. */
  ghost predicate Joins(stations: seq<Station>, i: int, u: Station, v: Station)
    requires 0 <= i < |stations| - 1
  {
    (stations[i] == u && stations[i + 1] == v) || (stations[i] == v && stations[i + 1] == u)
  }

  /** `u` and `v` are consecutive somewhere in `stations`. */
  ghost predicate Joined(stations: seq<Station>, u: Station, v: Station)
  {
    exists i :: 0 <= i < |stations| - 1 && Joins(stations, i, u, v)
  }

  /** `x` is entry `i` or entry `i + 1` of `stations`. */
  ghost predicate PairEnd(stations: seq<Station>, i: int, x: Station)
    requires 0 <= i < |stations| - 1
  {
    stations[i] == x || stations[i + 1] == x
  }

  /** `x` is one end of some consecutive pair of `stations`. */
  ghost predicate OnPair(stations: seq<Station>, x: Station)
  {
    exists i :: 0 <= i < |stations| - 1 && PairEnd(stations, i, x)
  }

  /** A list of fewer than two stations has no consecutive pair. */
  lemma {:induction false} ShortListJoinsNothing(stations: seq<Station>, u: Station, v: Station)
    ensures Joined(stations, u, v) ==> |stations| >= 2 && u in stations && v in stations
  {
    if Joined(stations, u, v) {
      var i :| 0 <= i < |stations| - 1 && Joins(stations, i, u, v);
      assert stations[i] in stations && stations[i + 1] in stations;
    }
  }

  /**
   `connect_stations(L)`: joins each entry of `L` to the next, that is exactly
   the pairs (L[i], L[i+1]) for 0 <= i < |L| - 1 and no other. The nodes that
   appear are the ends of those pairs; attributes are untouched.
   */
  method ConnectStations<A>(g: Graph<A>, stations: seq<Station>) returns (h: Graph<A>)
    ensures Valid(g) ==> Valid(h)
    ensures h.attrs == g.attrs
    ensures forall x :: x in Nodes(h) <==> x in Nodes(g) || OnPair(stations, x)
    ensures (forall k :: 0 <= k < |stations| ==> stations[k] in Nodes(g)) ==> Nodes(h) == Nodes(g)
    ensures forall u, v :: HasEdge(h.adj, u, v) <==> HasEdge(g.adj, u, v) || Joined(stations, u, v)
  {
    h := g;
    var i := 0;
    while i < |stations| - 1
      invariant 0 <= i && (i == 0 || i <= |stations| - 1)
      invariant Valid(g) ==> Valid(h)
      invariant h.attrs == g.attrs
      invariant forall x :: x in Nodes(h) <==>
        x in Nodes(g) || exists j :: 0 <= j < i && PairEnd(stations, j, x)
      invariant forall u, v :: HasEdge(h.adj, u, v) <==>
        HasEdge(g.adj, u, v) || exists j :: 0 <= j < i && Joins(stations, j, u, v)
    {
      var a, b := stations[i], stations[i + 1];
      h := AddEdge(h, a, b);
      forall x ensures x in Nodes(h) <==>
        x in Nodes(g) || exists j :: 0 <= j < i + 1 && PairEnd(stations, j, x)
      {
        if x == a || x == b {
          assert PairEnd(stations, i, x);
        }
      }
      forall u, v ensures HasEdge(h.adj, u, v) <==>
        HasEdge(g.adj, u, v) || exists j :: 0 <= j < i + 1 && Joins(stations, j, u, v)
      {
        if (u == a && v == b) || (u == b && v == a) {
          assert Joins(stations, i, u, v);
        }
      }
      i := i + 1;
    }
    forall x | OnPair(stations, x) ensures x in stations {
      var j :| 0 <= j < |stations| - 1 && PairEnd(stations, j, x);
      assert stations[j] in stations && stations[j + 1] in stations;
    }
  }
}
