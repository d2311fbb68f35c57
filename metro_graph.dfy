/**
 The standalone loader and route helper: `load_metro_graph`, which joins the
 stations of the three lines named Red, Blue and Green only, `get_route` with
 its list and report forms, and its own copy of `estimate_fare`.
 */
module MetroGraph {
  import opened StationTable
  import opened Graphs
  import opened Search

  const Red: LineName := "Red"
  const Blue: LineName := "Blue"
  const Green: LineName := "Green"

  /** One of the three named lines lists `u` and `v` in consecutive rows. */
  ghost predicate OnNamedLine(rows: seq<Row>, u: Station, v: Station)
  {
    || Joined(LineStations(rows, Red), u, v)
    || Joined(LineStations(rows, Blue), u, v)
    || Joined(LineStations(rows, Green), u, v)
  }

  /**
   `load_metro_graph`: one node per distinct station, tagged with the line of
   its last row; an undirected edge between two stations exactly when the
   Red, Blue or Green line lists them in consecutive rows. Rows of any other
   line contribute nodes but no edges.
   */
  method LoadMetroGraph(rows: seq<Row>) returns (g: Graph<LineName>)
    ensures Valid(g)
    ensures Nodes(g) == StationsOf(rows) && g.attrs.Keys == StationsOf(rows)
    ensures forall st :: st in g.attrs ==> g.attrs[st] == rows[LastIndex(rows, st)].line
    ensures forall u, v :: HasEdge(g.adj, u, v) <==> OnNamedLine(rows, u, v)
  {
    g := Graph(map[], map[]);
    var i := 0;
    while i < |rows|
      invariant 0 <= i <= |rows|
      invariant Valid(g)
      invariant Nodes(g) == StationsOf(rows[..i]) && g.attrs.Keys == StationsOf(rows[..i])
      invariant forall st :: st in g.attrs ==> g.attrs[st] == rows[LastIndex(rows[..i], st)].line
      invariant forall u, v :: !HasEdge(g.adj, u, v)
    {
      ghost var seen := rows[..i];
      assert rows[..i + 1] == seen + [rows[i]];
      StationsOfSnoc(seen, rows[i]);
      g := AddNode(g, rows[i].station, rows[i].line);
      forall st | st in g.attrs ensures g.attrs[st] == rows[LastIndex(rows[..i + 1], st)].line {
        LastIndexSnoc(seen, rows[i], st);
      }
      i := i + 1;
    }
    assert rows[..|rows|] == rows;
    var redLine := LineStations(rows, Red);
    var blueLine := LineStations(rows, Blue);
    var greenLine := LineStations(rows, Green);
    g := ConnectStations(g, redLine);
    g := ConnectStations(g, blueLine);
    g := ConnectStations(g, greenLine);
  }

  /** `estimate_fare`, this file's copy: a four-step fare by number of stations. */
  function EstimateFare(stations: int): (fare: int)
    ensures fare in {10, 20, 30, 40}
  {
    if stations <= 3 then 10
    else if stations <= 8 then 20
    else if stations <= 15 then 30
    else 40
  }

  lemma FareBoundaries()
    ensures EstimateFare(3) == 10 && EstimateFare(4) == 20
    ensures EstimateFare(8) == 20 && EstimateFare(9) == 30
    ensures EstimateFare(15) == 30 && EstimateFare(16) == 40
  {
  }

  /**
   What `get_route` returns: with `as_html` off, the route itself (`[]` when
   there is none); with it on, the figures its report shows, or the
   no-path report.
   */
  datatype RouteReply =
    | PathList(path: seq<Station>)
    | RouteReport(start: Station, end: Station, path: seq<Station>,
                  totalStations: nat, minutes: int, fare: int)
    | NoPathReport

  /**
   `get_route(graph, start, end, as_html)`: a fewest-stations route, returned
   unchanged as the list or summarised as a report with its station count,
   two minutes per station, and the fare. No route gives `[]` or the no-path
   report. Only the no-path error is caught, so both stations must be nodes.
   */
  method GetRoute<A>(graph: Graph<A>, start: Station, end: Station, asHtml: bool)
    returns (reply: RouteReply)
    requires Valid(graph) && start in Nodes(graph) && end in Nodes(graph)
    ensures !asHtml ==> reply.PathList?
    ensures asHtml ==> reply.RouteReport? || reply.NoPathReport?
    ensures reply.PathList? ==>
      && (reply.path == [] <==> !Reachable(graph.adj, start, end))
      && (reply.path != [] ==> IsShortestRoute(graph.adj, reply.path, start, end))
    ensures reply.NoPathReport? <==> asHtml && !Reachable(graph.adj, start, end)
    ensures reply.RouteReport? ==>
      && reply.start == start && reply.end == end
      && IsShortestRoute(graph.adj, reply.path, start, end)
      && reply.totalStations == |reply.path|
      && reply.minutes == |reply.path| * 2
      && reply.fare == EstimateFare(|reply.path|)
  {
    var r := ShortestPath(graph.adj, start, end);
    match r
    case Found(route) =>
      if asHtml {
        reply := RouteReport(start, end, route, |route|, |route| * 2, EstimateFare(|route|));
      } else {
        reply := PathList(route);
      }
    case NoPath =>
      reply := if asHtml then NoPathReport else PathList([]);
  }
}
