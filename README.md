# Hyderabad Metro route planner — a verified model of its core

The planner reads a table of metro stations. Each row names a station, the
line it is on and its coordinates. From that table it builds an undirected
graph: one node per station, and an edge between two stations that some line
lists in consecutive rows. A route query returns a route with the fewest
stations between two stations. From the number of stations it derives a
stepped fare and a travel time of two minutes per station.

The core exists twice:

- `app.py` is the interactive planner behind the web front end. It joins the
  consecutive stations of every line, and it also picks the table rows it
  needs to draw the route on a map.
- `metro_graph.py` is a standalone loader. It joins stations only on the
  lines named Red, Blue and Green, and its route helper can return either
  the route or a report of it.

Modules, one per concern, in dependency order:

- `StationTable` (`table.dfy`) — the row table and the column operations
  the loaders apply to it:
  - the stations of one line, in table order;
  - the distinct line names;
  - the first and the last row of a station.
- `Graphs` (`graph.dfy`) — the undirected graph as the graph library keeps
  it:
  - an adjacency map and an attribute map;
  - `add_node`, which merges the given attributes into a node's attributes;
    every call passes the same keys, so this is modelled as replacing them;
  - `add_edge`, which adds missing endpoints and is symmetric and
    idempotent;
  - the nested `connect_stations` loop.
- `Search` (`search.dfy`) — a fewest-stations route search standing in
  for the library's `shortest_path`. It is a one-way breadth-first search,
  level by level, with a visited set and a predecessor map. It is proved to
  return:
  - a route from start to end;
  - a route no longer than any other;
  - no route exactly when the end cannot be reached.
- `App` (`app.dfy`) — `load_data`, `get_route`, `estimate_fare`,
  `estimate_travel_time`, `get_coordinates`, and the three-way decision of
  `metro_route_planner`. The decision returns an outcome value in place of
  HTML.
- `MetroGraph` (`metro_graph.dfy`) — `load_metro_graph`, `get_route` with
  its list and report forms, and its copy of `estimate_fare`.
- `Comparison` (`compare.dfy`) — how the two copies relate:
  - the fares and times agree;
  - every edge of the standalone loader is an edge of `load_data`;
  - on a table that uses only the three named lines, both loaders build the
    same edges.
- `Scenario` (`scenario.dfy`) — a two-line table: Red runs A, B, C and
  Blue runs C, D, E. From the contracts alone it follows that the route from
  A to E is A, B, C, D, E, with fare 20 and ten minutes.

The source has imperative parts and pure parts, and the model keeps each in
its form:

- **Imperative.** The graph builders and the search are methods with loops.
  Their contracts describe the graph they build, or the route they find,
  through independent predicates:
  - `OnSomeLine` and `OnNamedLine` (which stations a line lists
    consecutively);
  - `IsRoute` and `IsShortestRoute`.
- **Pure.** The fare, the time, the coordinate selection and the table
  queries are functions.

## Model

| member | source | states |
|---|---|---|
| StationTable.LineStations | app.py:16 | `df[df['line'] == l]['station']`: never longer than the table, all of them stations of the table, and non-empty only for a line of the table; which stations and in what order is stated by `StationTable.LineStationsInOrder` |
| StationTable.LineIndices | app.py:16 | the mask `df['line'] == l` as a reference: strictly increasing row indices, each on line `l`, covering every row on line `l` |
| StationTable.LineStationsInOrder | app.py:16 | the stations of line `l` are, in table order, the stations of exactly the rows on `l`: entry `k` is the station of the `k`-th such row |
| StationTable.LineStationsMembers | metro_graph.py:16-18 | a station is listed for a line exactly when some row puts it on that line, and every line of the table lists at least one station |
| StationTable.UniqueLines | app.py:15 | `df['line'].unique()`: no name twice, and a name is listed exactly when some row is on that line |
| StationTable.LastIndex | app.py:12-13 | the row whose attributes a repeated station keeps: a row of that station with no later row of it |
| StationTable.LastIndexSnoc | app.py:12-13 | appending a row makes it the last row of its station and leaves every other station's last row alone |
| StationTable.FirstIndex | app.py:42 | the row `drop_duplicates('station')` keeps: a row of that station with no earlier row of it |
| StationTable.StationsOfSnoc | app.py:12-13 | appending a row adds exactly its station and its line to the table's stations and lines |
| Graphs.AddNode | app.py:13 | `add_node`: the node set gains `n`, `n`'s attributes become `a` (replacing any earlier ones), the edges are unchanged, and a well-formed graph stays well-formed |
| Graphs.AddEdge | app.py:18 | `add_edge`: the node set gains both endpoints, attributes are unchanged, the edges are the old ones plus (u, v) and (v, u), and a well-formed graph stays well-formed |
| Graphs.AddEdgeUndirected | app.py:18 | adding (u, v) builds the same graph as adding (v, u) |
| Graphs.AddEdgeIdempotent | app.py:18 | in a well-formed graph, adding an edge that is already present (as when two lines share a consecutive pair) leaves the graph unchanged |
| Graphs.ShortListJoinsNothing | app.py:17-18 | a list that joins two stations has at least two entries and contains both, so a one-station line contributes no edge |
| Graphs.ConnectStations | metro_graph.py:20-22 | `connect_stations(L)`: the new edges are exactly the pairs (L[i], L[i+1]), and nothing else changes. Nodes are added only for stations of such pairs, attributes are unchanged, well-formedness is kept, and a list of existing nodes adds no node |
| Search.TracePath | app.py:24 | following predecessors back from the end gives a route from start to end one station longer than the end's level |
| Search.ShortestPath | app.py:24-26 | the search (with the start and the end both nodes): a found route runs from start to end along edges and is no longer than any route; it reports no path exactly when the end is unreachable; the route from a station to itself is that one station |
| Search.CutLoop | app.py:24 | cutting the stretch between two visits of one station leaves a shorter route between the same ends |
| Search.ShortestIsSimple | app.py:24 | a shortest route never visits a station twice |
| Search.ReverseRoute | app.py:10 | in an undirected graph a route read backwards is a route from the end back to the start |
| Search.ShortestLengthSymmetric | app.py:24 | in an undirected graph the fewest stations from a to b equals the fewest from b to a |
| App.LoadData | app.py:8-20 | `load_data`: the nodes and the attribute keys are exactly the table's distinct stations; each station carries the line and coordinates of its last row; two stations are joined exactly when some line lists them in consecutive rows; the graph is well-formed and undirected |
| App.AllLines | app.py:15-18 | iterating over the distinct line names covers every line that joins any two stations |
| App.LinesSoFar | app.py:15-18 | connecting one more line extends the edges of the lines processed so far by that line's consecutive pairs |
| App.GetRoute | app.py:22-26 | `get_route` (with the start and the end both nodes): a non-empty result is a fewest-stations route from start to end; the result is `[]` exactly when the end is unreachable; from a station to itself it is that one station |
| App.EstimateFare | app.py:28-36 | the fare is always one of 10, 20, 30, 40 |
| App.FareBands | app.py:28-36 | the fare is 10 exactly for at most 3 stations, 20 exactly for 4 to 8, 30 exactly for 9 to 15, and 40 exactly above 15 |
| App.FareMonotone | app.py:28-36 | a route with more stations never costs less |
| App.FareBoundaries | app.py:28-36 | the values on both sides of each band edge: 3→10, 4→20, 8→20, 9→30, 15→30, 16→40 |
| App.TravelTimePerStation | app.py:38-39 | no stations take no time, each further station adds two minutes, and five stations take ten |
| App.GetCoordinates | app.py:41-42 | `get_coordinates`: the stations of the result are exactly the table's stations on the route; each station appears once, as its first row of the table; rows come in table order, not route order |
| App.MetroRoutePlanner | app.py:67-78 | `metro_route_planner`: same start and end is reported exactly when they are equal, with no search and no requirement that they be stations; no route is reported exactly when the end is unreachable; otherwise the route is a fewest-stations route, and the station count, time, fare and map rows are all derived from it |
| MetroGraph.LoadMetroGraph | metro_graph.py:4-29 | `load_metro_graph`: the nodes and attribute keys are exactly the table's distinct stations; each carries the line of its last row; two stations are joined exactly when the Red, Blue or Green line lists them in consecutive rows, so no other line contributes an edge |
| MetroGraph.EstimateFare | metro_graph.py:55-66 | this copy's fare is always one of 10, 20, 30, 40 |
| MetroGraph.FareBoundaries | metro_graph.py:55-66 | the boundary values 3→10, 4→20, 8→20, 9→30, 15→30, 16→40 |
| MetroGraph.GetRoute | metro_graph.py:31-53 | `get_route(graph, start, end, as_html)` (with both stations nodes): without `as_html` the reply is the route list, `[]` exactly when unreachable and otherwise a fewest-stations route; with `as_html` it is the no-path report exactly when unreachable, and otherwise a report of the start, end, a fewest-stations route, its station count, `2 × count` minutes and its fare |
| Comparison.EstimatesAgree | metro_graph.py:46 | the two fare functions agree on every count, and the inline `len(route) * 2` is `estimate_travel_time` |
| Comparison.NamedLineEdgesAreLineEdges | metro_graph.py:16-26 | every edge of the standalone loader is an edge of `load_data` |
| Comparison.SameEdgesOnThreeLines | metro_graph.py:16-26 | on a table whose every row is on Red, Blue or Green, the two loaders join exactly the same pairs |
| Scenario.TableLines | app.py:16 | on the two-line table, Red lists A, B, C, Blue lists C, D, E, and every other line name lists nothing |
| Scenario.LineEdgeIsAdjacent | app.py:17-18 | on the two-line table, every pair a line joins is a pair of neighbours on the track A–B–C–D–E |
| Scenario.TrackStepIsLineEdge | app.py:17-18 | on the two-line table, each step of the track is a pair some line joins, the interchange C included |
| Scenario.RepeatedRowGivesSelfLoop | app.py:17-18 | a line listing the same station in two consecutive rows joins that station to itself |
| Scenario.OnlyRoute | app.py:24 | on the two-line table, the only route from A to E of at most five stations is A, B, C, D, E |
| Scenario.TwoLineTrip | app.py:71-78 | loading the two-line table and querying A to E gives the route A, B, C, D, E, fare 20 and 10 minutes |

## Left out

- The web front end (app.py:98-135), the start-up at module level (app.py:94-96) and the app launch: these are UI and process plumbing. The model receives the graph and the table it would build as parameters, so the station list `sorted(G.nodes)` is not modelled either.
- Map rendering (`generate_map_html`, app.py:44-64): it lives in a foreign library and averages floating-point coordinates. Coordinates are carried as `real` values and never computed with.
- Reading the CSV file (app.py:9, metro_graph.py:8): this is I/O. The table is an input `seq<Row>`.
- The HTML and emoji text (app.py:69-91, metro_graph.py:38-49 and 53), the summary string (app.py:91) and the `print` of node and edge counts (metro_graph.py:28): these are presentation only. Outcomes and replies are datatypes carrying the figures the text shows.
- How the graph library breaks ties between equally short routes, and its bidirectional search: neither is visible in this repository. `Search.ShortestPath` promises some fewest-stations route, not a particular one.
- Unknown stations: the code catches only the no-path error (app.py:25, metro_graph.py:52). A station that is not a node raises a different error and does not give `[]`, so both stations being nodes is a precondition of `Search.ShortestPath`, `App.GetRoute` and `MetroGraph.GetRoute`.
- Self-loops: the code joins any two consecutive rows of a line, so a line that lists a station twice in a row gives it an edge to itself. `Scenario.RepeatedRowGivesSelfLoop` shows this.
- App.EstimateTravelTime: it carries no `ensures` of its own. What it computes is stated by `App.TravelTimePerStation` and `Comparison.EstimatesAgree`.
- Station counts and fares are unbounded integers. Python's integers do not wrap, so no width is modelled.
