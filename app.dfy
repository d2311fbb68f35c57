/**
 The planner behind the interactive front end: building the station graph
 from the table (`load_data`), the route query (`get_route`), the fare and
 time estimates, the coordinate lookup for the map, and the three-way
 decision of `metro_route_planner`, with outcomes in place of HTML.
 */
module App {
  import opened StationTable
  import opened Graphs
  import opened Search

  /** The attributes `load_data` stores on a station node. */
  datatype StationInfo = StationInfo(line: LineName, lat: real, lon: real)

  function InfoOf(r: Row): StationInfo
  {
    StationInfo(r.line, r.lat, r.lon)
  }

  /** Some line of the table lists `u` and `v` in consecutive rows. */
  ghost predicate OnSomeLine(rows: seq<Row>, u: Station, v: Station)
  {
    exists l :: Joined(LineStations(rows, l), u, v)
  }

  // ---------------------------------------------------------------------
  // Graph construction
  // ---------------------------------------------------------------------

  /**
   `load_data`: one node per distinct station, carrying the line and
   coordinates of that station's last row; an undirected edge between two
   stations exactly when some line lists them in consecutive rows.
   */
  method LoadData(rows: seq<Row>) returns (g: Graph<StationInfo>)
    ensures Valid(g)
    ensures Nodes(g) == StationsOf(rows) && g.attrs.Keys == StationsOf(rows)
    ensures forall st :: st in g.attrs ==> g.attrs[st] == InfoOf(rows[LastIndex(rows, st)])
    ensures forall u, v :: HasEdge(g.adj, u, v) <==> OnSomeLine(rows, u, v)
  {
    g := Graph(map[], map[]);
    var i := 0;
    while i < |rows|
      invariant 0 <= i <= |rows|
      invariant Valid(g)
      invariant Nodes(g) == StationsOf(rows[..i]) && g.attrs.Keys == StationsOf(rows[..i])
      invariant forall st :: st in g.attrs ==> g.attrs[st] == InfoOf(rows[LastIndex(rows[..i], st)])
      invariant forall u, v :: !HasEdge(g.adj, u, v)
    {
      ghost var seen := rows[..i];
      assert rows[..i + 1] == seen + [rows[i]];
      StationsOfSnoc(seen, rows[i]);
      g := AddNode(g, rows[i].station, InfoOf(rows[i]));
      forall st | st in g.attrs ensures g.attrs[st] == InfoOf(rows[LastIndex(rows[..i + 1], st)]) {
        LastIndexSnoc(seen, rows[i], st);
      }
      i := i + 1;
    }
    assert rows[..|rows|] == rows;
    ghost var attrs := g.attrs;
    var lines := UniqueLines(rows);
    var k := 0;
    while k < |lines|
      invariant 0 <= k <= |lines|
      invariant Valid(g) && Nodes(g) == StationsOf(rows) && g.attrs == attrs
      invariant forall u, v :: HasEdge(g.adj, u, v) <==>
        exists j :: 0 <= j < k && Joined(LineStations(rows, lines[j]), u, v)
    {
      var lineStations := LineStations(rows, lines[k]);
      ghost var before := g;
      g := ConnectStations(g, lineStations);
      LinesSoFar(rows, lines, k, before.adj, g.adj);
      k := k + 1;
    }
    AllLines(rows, lines);
  }

  /** Going through every distinct line name reaches every line that joins anything. */
  lemma AllLines(rows: seq<Row>, lines: seq<LineName>)
    requires forall l :: l in lines <==> l in LinesOf(rows)
    ensures forall u, v :: OnSomeLine(rows, u, v) <==>
      exists j :: 0 <= j < |lines| && Joined(LineStations(rows, lines[j]), u, v)
  {
    forall u, v | OnSomeLine(rows, u, v)
      ensures exists j :: 0 <= j < |lines| && Joined(LineStations(rows, lines[j]), u, v)
    {
      var l :| Joined(LineStations(rows, l), u, v);
      ShortListJoinsNothing(LineStations(rows, l), u, v);
      assert l in lines;
      var j :| 0 <= j < |lines| && lines[j] == l;
    }
  }

  /** Connecting line `lines[k]` extends the edges of the first `k` lines to the first `k + 1`. */
  lemma LinesSoFar(rows: seq<Row>, lines: seq<LineName>, k: nat, before: Adjacency, after: Adjacency)
    requires k < |lines|
    requires forall u, v :: HasEdge(before, u, v) <==>
      exists j :: 0 <= j < k && Joined(LineStations(rows, lines[j]), u, v)
    requires forall u, v :: HasEdge(after, u, v) <==>
      HasEdge(before, u, v) || Joined(LineStations(rows, lines[k]), u, v)
    ensures forall u, v :: HasEdge(after, u, v) <==>
      exists j :: 0 <= j < k + 1 && Joined(LineStations(rows, lines[j]), u, v)
  {
    forall u, v ensures HasEdge(after, u, v) <==>
      exists j :: 0 <= j < k + 1 && Joined(LineStations(rows, lines[j]), u, v)
    {
      if exists j :: 0 <= j < k + 1 && Joined(LineStations(rows, lines[j]), u, v) {
        var j :| 0 <= j < k + 1 && Joined(LineStations(rows, lines[j]), u, v);
        if j < k {
          assert HasEdge(before, u, v);
        }
      }
    }
  }

  // ---------------------------------------------------------------------
  // Route query
  // ---------------------------------------------------------------------

  /**
   `get_route`: a fewest-stations route from `start` to `end`, or `[]` when
   `end` cannot be reached. Only the no-path error is caught, so both
   stations must be nodes of the graph.
   */
  method GetRoute<A>(g: Graph<A>, start: Station, end: Station) returns (route: seq<Station>)
    requires Valid(g) && start in Nodes(g) && end in Nodes(g)
    ensures route != [] ==> IsShortestRoute(g.adj, route, start, end)
    ensures route == [] <==> !Reachable(g.adj, start, end)
    ensures start == end ==> route == [start]
  {
    var r := ShortestPath(g.adj, start, end);
    match r
    case Found(p) => route := p;
    case NoPath => route := [];
  }

  // ---------------------------------------------------------------------
  // Fare and time
  // ---------------------------------------------------------------------

  /** `estimate_fare`: a four-step fare by number of stations. */
  function EstimateFare(stations: int): (fare: int)
    ensures fare in {10, 20, 30, 40}
  {
    if stations <= 3 then 10
    else if stations <= 8 then 20
    else if stations <= 15 then 30
    else 40
  }

  /** The fare bands, each in both directions. */
  lemma FareBands(n: int)
    ensures EstimateFare(n) == 10 <==> n <= 3
    ensures EstimateFare(n) == 20 <==> 4 <= n <= 8
    ensures EstimateFare(n) == 30 <==> 9 <= n <= 15
    ensures EstimateFare(n) == 40 <==> 16 <= n
  {
  }

  /** A longer route never costs less. */
  lemma FareMonotone(m: int, n: int)
    requires m <= n
    ensures EstimateFare(m) <= EstimateFare(n)
  {
  }

  lemma FareBoundaries()
    ensures EstimateFare(3) == 10 && EstimateFare(4) == 20
    ensures EstimateFare(8) == 20 && EstimateFare(9) == 30
    ensures EstimateFare(15) == 30 && EstimateFare(16) == 40
  {
  }

  /** `estimate_travel_time`: two minutes per station. */
  function EstimateTravelTime(stations: int): (minutes: int)
  {
    stations * 2
  }

  /** No stations take no time, and each further station adds two minutes. */
  lemma TravelTimePerStation(n: int)
    ensures EstimateTravelTime(0) == 0
    ensures EstimateTravelTime(n + 1) == EstimateTravelTime(n) + 2
    ensures EstimateTravelTime(5) == 10
  {
  }

  // ---------------------------------------------------------------------
  // Coordinates for the map
  // ---------------------------------------------------------------------

  /**
   `get_coordinates`: the table rows of the stations on the route, one per
   station (its first row), in table order rather than route order.
   Selecting the rows of route stations and then dropping repeated stations
   is the same as keeping a row when its station is on the route and has not
   appeared in an earlier row, which is how it is written here.
   */
  function GetCoordinates(rows: seq<Row>, route: seq<Station>): (r: seq<Row>)
    ensures StationsOf(r) == StationsOf(rows) * (set x | x in route)
    ensures forall i, j :: 0 <= i < j < |r| ==> r[i].station != r[j].station
    ensures forall k :: 0 <= k < |r| ==>
      r[k].station in StationsOf(rows) && r[k] == rows[FirstIndex(rows, r[k].station)]
    ensures forall k, k' :: 0 <= k < k' < |r| ==>
      FirstIndex(rows, r[k].station) < FirstIndex(rows, r[k'].station)
  {
    if rows == [] then []
    else
      var init := rows[..|rows| - 1];
      var last := rows[|rows| - 1];
      assert rows == init + [last];
      StationsOfSnoc(init, last);
      var prefix := GetCoordinates(init, route);
      if last.station in route && last.station !in StationsOf(init) then
        StationsOfSnoc(prefix, last);
        prefix + [last]
      else
        prefix
  }

  // ---------------------------------------------------------------------
  // The planner's decision
  // ---------------------------------------------------------------------

  /** What `metro_route_planner` reports, in place of its HTML. */
  datatype PlannerOutcome =
    | SameStation
    | NoRoute
    | RouteFound(route: seq<Station>, coordinates: seq<Row>,
                 totalStations: nat, minutes: int, fare: int)

  /**
   `metro_route_planner`: the same start and destination are reported before
   any search; otherwise no route is reported exactly when the destination is
   unreachable, and a found route comes with its station count, time, fare
   and map rows, all derived from its length.
   */
  method MetroRoutePlanner(g: Graph<StationInfo>, rows: seq<Row>, start: Station, end: Station)
    returns (o: PlannerOutcome)
    requires Valid(g)
    requires start != end ==> start in Nodes(g) && end in Nodes(g)
    ensures o.SameStation? <==> start == end
    ensures o.NoRoute? <==> start != end && !Reachable(g.adj, start, end)
    ensures o.RouteFound? ==>
      && IsShortestRoute(g.adj, o.route, start, end)
      && o.totalStations == |o.route|
      && o.minutes == EstimateTravelTime(|o.route|)
      && o.fare == EstimateFare(|o.route|)
      && o.coordinates == GetCoordinates(rows, o.route)
  {
    if start == end {
      return SameStation;
    }
    var route := GetRoute(g, start, end);
    if route == [] {
      return NoRoute;
    }
    var coordinates := GetCoordinates(rows, route);
    var minutes := EstimateTravelTime(|route|);
    var fare := EstimateFare(|route|);
    o := RouteFound(route, coordinates, |route|, minutes, fare);
  }
}
