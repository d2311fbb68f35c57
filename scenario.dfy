/**
 A worked query on a two-line table: Red runs A, B, C and Blue runs C, D, E,
 with C the interchange. What the loader and the route query promise is
 enough to pin down the answer from A to E: the one route of five stations.
 */
module Scenario {
  import opened StationTable
  import opened Graphs
  import opened Search
  import opened App

  function TwoLineTable(): seq<Row>
  {
    [ Row("A", "Red", 0.0, 0.0), Row("B", "Red", 0.0, 1.0), Row("C", "Red", 0.0, 2.0),
      Row("C", "Blue", 0.0, 2.0), Row("D", "Blue", 0.0, 3.0), Row("E", "Blue", 0.0, 4.0) ]
  }

  /** Position along the track A - B - C - D - E. */
  function Position(x: Station): int
  {
    if x == "A" then 0 else if x == "B" then 1 else if x == "C" then 2
    else if x == "D" then 3 else if x == "E" then 4 else -1
  }

  function Track(): seq<Station>
  {
    ["A", "B", "C", "D", "E"]
  }

  lemma TableStations()
    ensures StationsOf(TwoLineTable()) == {"A", "B", "C", "D", "E"}
  {
    var rows := TwoLineTable();
    assert rows[0].station == "A" && rows[1].station == "B" && rows[2].station == "C";
    assert rows[4].station == "D" && rows[5].station == "E";
  }

  /** The table's lines: Red and Blue as listed, every other name empty. */
  lemma TableLines(l: LineName)
    ensures LineStations(TwoLineTable(), l) ==
      if l == "Red" then ["A", "B", "C"] else if l == "Blue" then ["C", "D", "E"] else []
  {
    var rows := TwoLineTable();
    assert rows[..0] == [];
    assert LineStations(rows[..1], l) == if l == "Red" then ["A"] else [] by {
      assert rows[..1][..0] == rows[..0];
    }
    assert LineStations(rows[..2], l) == if l == "Red" then ["A", "B"] else [] by {
      assert rows[..2][..1] == rows[..1];
    }
    assert LineStations(rows[..3], l) == if l == "Red" then ["A", "B", "C"] else [] by {
      assert rows[..3][..2] == rows[..2];
    }
    assert LineStations(rows[..4], l) ==
      if l == "Red" then ["A", "B", "C"] else if l == "Blue" then ["C"] else [] by {
      assert rows[..4][..3] == rows[..3];
    }
    assert LineStations(rows[..5], l) ==
      if l == "Red" then ["A", "B", "C"] else if l == "Blue" then ["C", "D"] else [] by {
      assert rows[..5][..4] == rows[..4];
    }
    assert rows[..6][..5] == rows[..5];
    assert rows[..6] == rows;
  }

  /** Stations next to each other on the track A - B - C - D - E. */
  predicate Adjacent(u: Station, v: Station)
  {
    || (u == "A" && v == "B") || (u == "B" && v == "A")
    || (u == "B" && v == "C") || (u == "C" && v == "B")
    || (u == "C" && v == "D") || (u == "D" && v == "C")
    || (u == "D" && v == "E") || (u == "E" && v == "D")
  }

  lemma AdjacentPositions(u: Station, v: Station)
    requires Adjacent(u, v)
    ensures 0 <= Position(u) && 0 <= Position(v)
    ensures Position(u) - Position(v) == 1 || Position(v) - Position(u) == 1
  {
  }

  /** A consecutive pair of a line is a consecutive pair of the track. */
  lemma LineEdgeIsAdjacent(u: Station, v: Station)
    requires App.OnSomeLine(TwoLineTable(), u, v)
    ensures Adjacent(u, v)
  {
    var rows := TwoLineTable();
    var l :| Joined(LineStations(rows, l), u, v);
    TableLines(l);
    var stations := LineStations(rows, l);
    var i :| 0 <= i < |stations| - 1 && Joins(stations, i, u, v);
    if l == "Red" {
      assert stations == ["A", "B", "C"];
      assert i == 0 || i == 1;
    } else {
      assert l == "Blue" && stations == ["C", "D", "E"];
      assert i == 0 || i == 1;
    }
  }

  /** The interchange C joins the two lines into the one track. */
  lemma TrackStepIsLineEdge(k: nat)
    requires k < 4
    ensures App.OnSomeLine(TwoLineTable(), Track()[k], Track()[k + 1])
  {
    var rows := TwoLineTable();
    var track := Track();
    if k < 2 {
      TableLines("Red");
      assert Joins(LineStations(rows, "Red"), k, track[k], track[k + 1]);
    } else {
      TableLines("Blue");
      assert Joins(LineStations(rows, "Blue"), k - 2, track[k], track[k + 1]);
    }
  }

  /** From position `k` to position `k + 1` of `p`, a walk moves at most one station along the track. */
  predicate StepsUp(p: seq<Station>, k: nat)
    requires k + 1 < |p|
  {
    0 <= Position(p[k]) && 0 <= Position(p[k + 1]) && Position(p[k + 1]) <= Position(p[k]) + 1
  }

  /** Every walk in the graph of the table moves one station along the track at a time. */
  lemma WalkSteps(adj: Adjacency, p: seq<Station>)
    requires forall u, v :: HasEdge(adj, u, v) <==> App.OnSomeLine(TwoLineTable(), u, v)
    requires IsWalk(adj, p)
    ensures forall k :: 0 <= k < |p| - 1 ==> StepsUp(p, k)
  {
    forall k | 0 <= k < |p| - 1 ensures StepsUp(p, k) {
      assert HasEdge(adj, p[k], p[k + 1]);
      LineEdgeIsAdjacent(p[k], p[k + 1]);
      AdjacentPositions(p[k], p[k + 1]);
    }
  }

  /** `j - k` steps cover at most `j - k` stations of the track. */
  lemma {:induction false} StepsAhead(p: seq<Station>, k: nat, j: nat)
    requires forall i :: 0 <= i < |p| - 1 ==> StepsUp(p, i)
    requires k <= j < |p|
    ensures Position(p[j]) <= Position(p[k]) + (j - k)
    decreases j - k
  {
    if k < j {
      StepsAhead(p, k + 1, j);
      assert StepsUp(p, k);
    }
  }

  /**
   A line that lists the same station in two consecutive rows gives that
   station an edge to itself: nothing in the loader rules self-loops out.
   */
  lemma RepeatedRowGivesSelfLoop()
    ensures App.OnSomeLine([Row("A", "Red", 0.0, 0.0), Row("A", "Red", 0.0, 0.0)], "A", "A")
  {
    var rows := [Row("A", "Red", 0.0, 0.0), Row("A", "Red", 0.0, 0.0)];
    assert rows[..1] == [rows[0]] && rows[..1][..0] == [];
    assert LineStations(rows[..1], "Red") == ["A"];
    assert LineStations(rows, "Red") == ["A", "A"];
    assert Joins(LineStations(rows, "Red"), 0, "A", "A");
  }

  /** The track is a route from A to E in the graph of the table. */
  lemma TrackIsRoute(adj: Adjacency)
    requires forall u, v :: HasEdge(adj, u, v) <==> App.OnSomeLine(TwoLineTable(), u, v)
    requires forall x :: x in Track() ==> x in adj
    ensures IsRoute(adj, Track(), "A", "E")
  {
    var track := Track();
    forall k | 0 <= k < |track| - 1 ensures HasEdge(adj, track[k], track[k + 1]) {
      TrackStepIsLineEdge(k);
    }
  }

  /** A route from A to E of at most five stations is the track itself. */
  lemma OnlyRoute(adj: Adjacency, route: seq<Station>)
    requires forall u, v :: HasEdge(adj, u, v) <==> App.OnSomeLine(TwoLineTable(), u, v)
    requires IsRoute(adj, route, "A", "E") && |route| <= 5
    ensures route == Track()
  {
    var track := Track();
    WalkSteps(adj, route);
    StepsAhead(route, 0, |route| - 1);
    assert |route| == 5;
    forall k | 0 <= k < 5 ensures route[k] == track[k] {
      StepsAhead(route, 0, k);
      StepsAhead(route, k, 4);
      if k < 4 {
        assert StepsUp(route, k);
      } else {
        assert StepsUp(route, 3);
      }
    }
  }

  /**
   The route from A to E on the two-line table is A, B, C, D, E: five
   stations, a fare of 20 and ten minutes.
   */
  method TwoLineTrip() returns (route: seq<Station>, fare: int, minutes: int)
    ensures route == ["A", "B", "C", "D", "E"] && fare == 20 && minutes == 10
  {
    var rows := TwoLineTable();
    var g := LoadData(rows);
    TableStations();
    route := GetRoute(g, "A", "E");
    TrackIsRoute(g.adj);
    OnlyRoute(g.adj, route);
    fare := EstimateFare(|route|);
    minutes := EstimateTravelTime(|route|);
  }
}
