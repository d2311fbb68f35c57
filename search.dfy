/**
 Fewest-hops route search over an unweighted graph: a one-way breadth-first
 search, level by level, with a visited set and a predecessor map, standing
 in for the graph library's `shortest_path` (whose own, bidirectional search
 is not modelled). Which of several equally short routes it returns is left
 unspecified by the model.
 */
module Search {
  import opened StationTable
  import opened Graphs

  function Last(p: seq<Station>): Station
    requires |p| > 0
  {
    p[|p| - 1]
  }

  /** A non-empty sequence of nodes in which each entry is a neighbour of the one before. */
  ghost predicate IsWalk(adj: Adjacency, p: seq<Station>)
  {
    && |p| >= 1
    && (forall i :: 0 <= i < |p| ==> p[i] in adj)
    && (forall i :: 0 <= i < |p| - 1 ==> HasEdge(adj, p[i], p[i + 1]))
  }

  ghost predicate IsWalkFrom(adj: Adjacency, p: seq<Station>, s: Station)
  {
    IsWalk(adj, p) && p[0] == s
  }

  /** A walk from `s` to `e`, both inclusive. */
  ghost predicate IsRoute(adj: Adjacency, p: seq<Station>, s: Station, e: Station)
  {
    IsWalkFrom(adj, p, s) && Last(p) == e
  }

  ghost predicate Reachable(adj: Adjacency, s: Station, e: Station)
  {
    exists p :: IsRoute(adj, p, s, e)
  }

  /** A route from `s` to `e` with no more stations than any other. */
  ghost predicate IsShortestRoute(adj: Adjacency, p: seq<Station>, s: Station, e: Station)
  {
    IsRoute(adj, p, s, e) && forall q :: IsRoute(adj, q, s, e) ==> |p| <= |q|
  }

  datatype SearchResult = Found(route: seq<Station>) | NoPath

  // ---------------------------------------------------------------------
  // Invariants of the search state
  // ---------------------------------------------------------------------

  /**
   The predecessor tree: every discovered node other than `s` has a discovered
   predecessor one level nearer to `s`, joined to it by an edge.
   */
  ghost predicate Tree(adj: Adjacency, s: Station, visited: set<Station>,
                       parent: map<Station, Station>, dist: map<Station, nat>)
  {
    && s in visited && visited <= adj.Keys
    && dist.Keys == visited && dist[s] == 0
    && parent.Keys == visited - {s}
    && forall v :: v in parent ==>
         parent[v] in visited && HasEdge(adj, parent[v], v) && dist[v] == dist[parent[v]] + 1
  }

  /** No walk from `s` reaches a discovered node in fewer stations than its level plus one. */
  ghost predicate NoShortcut(adj: Adjacency, s: Station, dist: map<Station, nat>)
  {
    forall p :: IsWalkFrom(adj, p, s) && Last(p) in dist ==> |p| >= dist[Last(p)] + 1
  }

  /** Every walk from `s` of at most `n` stations ends at a discovered node. */
  ghost predicate CoversUpTo(adj: Adjacency, s: Station, visited: set<Station>, n: nat)
  {
    forall p :: IsWalkFrom(adj, p, s) && |p| <= n ==> Last(p) in visited
  }

  // ---------------------------------------------------------------------
  // Facts about walks
  // ---------------------------------------------------------------------

  lemma WalkPrefix(adj: Adjacency, p: seq<Station>, k: nat)
    requires IsWalk(adj, p) && 1 <= k <= |p|
    ensures IsWalk(adj, p[..k]) && p[..k][0] == p[0] && Last(p[..k]) == p[k - 1]
  {
  }

  /** A walk that starts inside a set closed under neighbours never leaves it. */
  lemma {:induction false} WalkStaysInside(adj: Adjacency, p: seq<Station>, inside: set<Station>)
    requires IsWalk(adj, p) && p[0] in inside
    requires forall v :: v in inside ==> v in adj && adj[v] <= inside
    ensures Last(p) in inside
  {
    if |p| > 1 {
      var q := p[..|p| - 1];
      WalkPrefix(adj, p, |p| - 1);
      WalkStaysInside(adj, q, inside);
      assert HasEdge(adj, p[|p| - 2], p[|p| - 1]);
    }
  }

  /** Following the predecessor map from a discovered node back to `s` gives a route of level-plus-one stations. */
  method TracePath(adj: Adjacency, s: Station, e: Station, visited: set<Station>,
                   parent: map<Station, Station>, ghost dist: map<Station, nat>)
    returns (p: seq<Station>)
    requires Tree(adj, s, visited, parent, dist) && e in visited
    ensures IsRoute(adj, p, s, e) && |p| == dist[e] + 1
  {
    var cur := e;
    p := [e];
    while cur != s
      invariant cur in visited
      invariant IsRoute(adj, p, cur, e)
      invariant |p| == dist[e] - dist[cur] + 1
      decreases dist[cur]
    {
      var prev := parent[cur];
      p := [prev] + p;
      cur := prev;
    }
  }

  /**
   Discover the undiscovered neighbours of `u`, a node of level `level`: each
   gets `u` as predecessor, level `level + 1`, and a place at the end of `next`.
   */
  method ExpandNode(adj: Adjacency, s: Station, u: Station, ghost level: nat,
                    visited: set<Station>, parent: map<Station, Station>,
                    ghost dist: map<Station, nat>, next: seq<Station>)
    returns (visited': set<Station>, parent': map<Station, Station>,
             ghost dist': map<Station, nat>, next': seq<Station>)
    requires Closed(adj)
    requires Tree(adj, s, visited, parent, dist) && NoShortcut(adj, s, dist)
    requires CoversUpTo(adj, s, visited, level + 1)
    requires u in visited && dist[u] == level
    ensures Tree(adj, s, visited', parent', dist') && NoShortcut(adj, s, dist')
    ensures visited' == visited + adj[u]
    ensures forall v :: v in visited ==> dist'[v] == dist[v]
    ensures forall v :: v in visited' - visited ==> dist'[v] == level + 1
    ensures forall v :: v in next' <==> v in next || v in visited' - visited
  {
    visited', parent', dist', next' := visited, parent, dist, next;
    var todo := adj[u];
    while todo != {}
      invariant todo <= adj[u]
      invariant visited' == visited + (adj[u] - todo)
      invariant Tree(adj, s, visited', parent', dist') && NoShortcut(adj, s, dist')
      invariant forall v :: v in visited ==> dist'[v] == dist[v]
      invariant forall v :: v in visited' - visited ==> dist'[v] == level + 1
      invariant forall v :: v in next' <==> v in next || v in visited' - visited
      decreases |todo|
    {
      var w :| w in todo;
      todo := todo - {w};
      if w !in visited' {
        assert w !in visited && HasEdge(adj, u, w);
        // Any walk to w of at most level + 1 stations would end inside `visited`.
        forall p | IsWalkFrom(adj, p, s) && Last(p) == w ensures |p| >= level + 2 {
        }
        visited' := visited' + {w};
        parent' := parent'[w := u];
        dist' := dist'[w := level + 1];
        next' := next' + [w];
      }
    }
  }

  /**
   Discover the next level: expand every node of `fringe` (all of level
   `level`) in turn. Returns the grown search state and the new fringe, which
   holds exactly the newly discovered nodes, all of level `level + 1`.
   */
  method ExpandLevel(adj: Adjacency, s: Station, ghost level: nat, fringe: seq<Station>,
                     visited: set<Station>, parent: map<Station, Station>,
                     ghost dist: map<Station, nat>)
    returns (visited': set<Station>, parent': map<Station, Station>,
             ghost dist': map<Station, nat>, next: seq<Station>)
    requires Closed(adj)
    requires Tree(adj, s, visited, parent, dist) && NoShortcut(adj, s, dist)
    requires CoversUpTo(adj, s, visited, level + 1)
    requires forall k :: 0 <= k < |fringe| ==> fringe[k] in visited && dist[fringe[k]] == level
    ensures Tree(adj, s, visited', parent', dist') && NoShortcut(adj, s, dist')
    ensures visited <= visited'
    ensures forall v :: v in visited ==> dist'[v] == dist[v]
    ensures forall v :: v in visited' - visited ==> dist'[v] == level + 1
    ensures forall v :: v in next <==> v in visited' - visited
    ensures forall k :: 0 <= k < |fringe| ==> adj[fringe[k]] <= visited'
  {
    visited', parent', dist', next := visited, parent, dist, [];
    var k := 0;
    while k < |fringe|
      invariant 0 <= k <= |fringe|
      invariant Tree(adj, s, visited', parent', dist') && NoShortcut(adj, s, dist')
      invariant CoversUpTo(adj, s, visited', level + 1)
      invariant visited <= visited'
      invariant forall v :: v in visited ==> dist'[v] == dist[v]
      invariant forall v :: v in visited' - visited ==> dist'[v] == level + 1
      invariant forall v :: v in next <==> v in visited' - visited
      invariant forall j :: 0 <= j < k ==> adj[fringe[j]] <= visited'
    {
      visited', parent', dist', next := ExpandNode(adj, s, fringe[k], level, visited', parent', dist', next);
      k := k + 1;
    }
  }

  /**
   Once every discovered node nearer than level `n` has all its neighbours
   discovered, walks of `n + 1` stations end at discovered nodes too.
   */
  lemma CoverNextLevel(adj: Adjacency, s: Station, visited: set<Station>, dist: map<Station, nat>, n: nat)
    requires n >= 1 && visited <= adj.Keys
    requires dist.Keys == visited && NoShortcut(adj, s, dist)
    requires CoversUpTo(adj, s, visited, n)
    requires forall v :: v in visited && dist[v] < n ==> adj[v] <= visited
    ensures CoversUpTo(adj, s, visited, n + 1)
  {
    forall p | IsWalkFrom(adj, p, s) && |p| == n + 1 ensures Last(p) in visited {
      var q := p[..n];
      WalkPrefix(adj, p, n);
      assert IsWalkFrom(adj, q, s);
      assert HasEdge(adj, Last(q), Last(p));
    }
  }

  /** Discovering a node leaves fewer undiscovered ones. */
  lemma Shrinks(keys: set<Station>, visited: set<Station>, visited': set<Station>, w: Station)
    requires visited <= visited' <= keys && w in visited' - visited
    ensures |keys - visited'| < |keys - visited|
  {
    assert keys - visited == (keys - visited') + (visited' - visited);
    assert (keys - visited') !! (visited' - visited);
    assert w in visited' - visited;
  }

  /** An empty new fringe means the level discovered nothing. */
  lemma NothingNew(visited: set<Station>, visited': set<Station>, next: seq<Station>)
    requires visited <= visited' && next == []
    requires forall v :: v in next <==> v in visited' - visited
    ensures visited' == visited
  {
    forall v | v in visited' ensures v in visited {
      assert v !in next;
    }
  }

  /** The search starts with `s` alone discovered, at level 0. */
  lemma Start(adj: Adjacency, s: Station)
    ensures NoShortcut(adj, s, map[s := 0])
    ensures CoversUpTo(adj, s, {s}, 1)
  {
  }

  /** A traced route whose length is its end's level plus one is a shortest one. */
  lemma Traced(adj: Adjacency, s: Station, e: Station, p: seq<Station>, dist: map<Station, nat>)
    requires s in dist && e in dist && dist[s] == 0 && NoShortcut(adj, s, dist)
    requires IsRoute(adj, p, s, e) && |p| == dist[e] + 1
    ensures IsShortestRoute(adj, p, s, e)
    ensures s == e ==> p == [s]
  {
  }

  /**
   After a level is expanded, every discovered node of level at most `level`
   has all its neighbours discovered.
   */
  lemma LevelDone(adj: Adjacency, level: nat, fringe: seq<Station>,
                  visited: set<Station>, dist: map<Station, nat>,
                  visited': set<Station>, dist': map<Station, nat>)
    requires visited <= visited' <= adj.Keys && dist.Keys == visited && dist'.Keys == visited'
    requires forall k :: 0 <= k < |fringe| ==> fringe[k] in visited
    requires forall v :: v in visited ==> dist'[v] == dist[v]
    requires forall v :: v in visited' - visited ==> dist'[v] == level + 1
    requires forall v :: v in visited && dist[v] == level ==> v in fringe
    requires forall v :: v in visited && dist[v] < level ==> adj[v] <= visited
    requires forall k :: 0 <= k < |fringe| ==> adj[fringe[k]] <= visited'
    ensures forall v :: v in visited' && dist'[v] < level + 1 ==> adj[v] <= visited'
  {
    forall v | v in visited' && dist'[v] < level + 1 ensures adj[v] <= visited' {
      if dist[v] == level {
        var k :| 0 <= k < |fringe| && fringe[k] == v;
      }
    }
  }

  /**
   When the fringe runs dry without reaching `e`, every discovered node has
   all its neighbours discovered, so no walk from `s` gets out to `e`.
   */
  lemma Exhausted(adj: Adjacency, s: Station, e: Station, visited: set<Station>,
                  dist: map<Station, nat>, level: nat)
    requires s in visited && visited <= adj.Keys && e !in visited && dist.Keys == visited
    requires forall v :: v in visited ==> dist[v] < level + 1
    requires forall v :: v in visited && dist[v] < level ==> adj[v] <= visited
    requires forall v :: v in visited ==> dist[v] != level
    ensures !Reachable(adj, s, e)
  {
    forall p | IsRoute(adj, p, s, e) ensures false {
      WalkStaysInside(adj, p, visited);
    }
  }

  /**
   `nx.shortest_path(G, source=s, target=e)` on an unweighted graph: a route
   from `s` to `e` with the fewest stations when there is one, and `NoPath`
   exactly when `e` cannot be reached from `s`. Both endpoints must be nodes:
   the library raises a different error otherwise.
   */
  method ShortestPath(adj: Adjacency, s: Station, e: Station) returns (r: SearchResult)
    requires Closed(adj)
    requires s in adj && e in adj
    ensures r.Found? ==> IsShortestRoute(adj, r.route, s, e)
    ensures r.NoPath? <==> !Reachable(adj, s, e)
    ensures s == e ==> r == Found([s])
  {
    var visited := {s};
    var parent: map<Station, Station> := map[];
    ghost var dist: map<Station, nat> := map[s := 0];
    ghost var level: nat := 0;
    var fringe := [s];
    Start(adj, s);
    while fringe != [] && e !in visited
      invariant Tree(adj, s, visited, parent, dist) && NoShortcut(adj, s, dist)
      invariant CoversUpTo(adj, s, visited, level + 1)
      invariant forall v :: v in visited ==> dist[v] <= level
      invariant forall k :: 0 <= k < |fringe| ==> fringe[k] in visited && dist[fringe[k]] == level
      invariant forall v :: v in visited && dist[v] == level ==> v in fringe
      invariant forall v :: v in visited && dist[v] < level ==> adj[v] <= visited
      decreases |adj.Keys - visited|, |fringe|
    {
      var visited', parent', next;
      ghost var dist';
      visited', parent', dist', next := ExpandLevel(adj, s, level, fringe, visited, parent, dist);
      LevelDone(adj, level, fringe, visited, dist, visited', dist');
      CoverNextLevel(adj, s, visited', dist', level + 1);
      assert forall k :: 0 <= k < |next| ==> next[k] in next;
      if next != [] {
        Shrinks(adj.Keys, visited, visited', next[0]);
      } else {
        NothingNew(visited, visited', next);
      }
      visited, parent, dist, fringe, level := visited', parent', dist', next, level + 1;
    }
    if e in visited {
      var p := TracePath(adj, s, e, visited, parent, dist);
      Traced(adj, s, e, p, dist);
      r := Found(p);
    } else {
      assert forall v :: v in visited ==> dist[v] != level;
      Exhausted(adj, s, e, visited, dist, level);
      r := NoPath;
    }
  }

  // ---------------------------------------------------------------------
  // Properties of shortest routes
  // ---------------------------------------------------------------------

  /** Cutting out the stretch between two visits of the same station leaves a route. */
  lemma CutLoop(adj: Adjacency, p: seq<Station>, s: Station, e: Station, i: nat, j: nat)
    requires IsRoute(adj, p, s, e) && i < j < |p| && p[i] == p[j]
    ensures IsRoute(adj, p[..i] + p[j..], s, e) && |p[..i] + p[j..]| < |p|
  {
    var q := p[..i] + p[j..];
    assert forall k :: 0 <= k < i ==> q[k] == p[k];
    assert forall k :: i <= k < |q| ==> q[k] == p[k + j - i];
    forall k | 0 <= k < |q| - 1 ensures HasEdge(adj, q[k], q[k + 1]) {
      if k + 1 < i {
      } else if k + 1 == i {
        assert q[k + 1] == p[j] == p[i];
        assert HasEdge(adj, p[k], p[k + 1]);
      } else {
        assert HasEdge(adj, p[k + j - i], p[k + j - i + 1]);
      }
    }
  }

  /** A shortest route never visits a station twice. */
  lemma ShortestIsSimple(adj: Adjacency, p: seq<Station>, s: Station, e: Station)
    requires IsShortestRoute(adj, p, s, e)
    ensures forall i, j :: 0 <= i < j < |p| ==> p[i] != p[j]
  {
    forall i, j | 0 <= i < j < |p| ensures p[i] != p[j] {
      if p[i] == p[j] {
        CutLoop(adj, p, s, e, i, j);
      }
    }
  }

  /** The stations of `p` in the opposite order. */
  function Reverse(p: seq<Station>): seq<Station>
  {
    seq(|p|, i requires 0 <= i < |p| => p[|p| - 1 - i])
  }

  /** In an undirected graph a route read backwards is a route back. */
  lemma ReverseRoute(adj: Adjacency, p: seq<Station>, s: Station, e: Station)
    requires Symmetric(adj) && IsRoute(adj, p, s, e)
    ensures IsRoute(adj, Reverse(p), e, s)
  {
    var r := Reverse(p);
    forall k | 0 <= k < |r| - 1 ensures HasEdge(adj, r[k], r[k + 1]) {
      assert HasEdge(adj, p[|p| - 2 - k], p[|p| - 1 - k]);
    }
  }

  /** In an undirected graph the fewest stations from a to b equals the fewest from b to a. */
  lemma ShortestLengthSymmetric(adj: Adjacency, p: seq<Station>, q: seq<Station>, a: Station, b: Station)
    requires Symmetric(adj)
    requires IsShortestRoute(adj, p, a, b) && IsShortestRoute(adj, q, b, a)
    ensures |p| == |q|
  {
    ReverseRoute(adj, p, a, b);
    ReverseRoute(adj, q, b, a);
  }
}
