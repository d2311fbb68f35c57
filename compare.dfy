/**
 How the two copies of the planner relate: they agree on fares and times,
 and the standalone loader's edges are those of the interactive one
 restricted to the Red, Blue and Green lines.
 */
module Comparison {
  import opened StationTable
  import opened Graphs
  import App
  import MetroGraph

  /** The two fare functions agree everywhere, and the inline time is the shared one. */
  lemma EstimatesAgree(n: int)
    ensures App.EstimateFare(n) == MetroGraph.EstimateFare(n)
    ensures n * 2 == App.EstimateTravelTime(n)
  {
  }

  /** Every edge of the standalone loader is an edge of the interactive one. */
  lemma NamedLineEdgesAreLineEdges(rows: seq<Row>, u: Station, v: Station)
    ensures MetroGraph.OnNamedLine(rows, u, v) ==> App.OnSomeLine(rows, u, v)
  {
    if Joined(LineStations(rows, MetroGraph.Red), u, v) {
      assert App.OnSomeLine(rows, u, v);
    } else if Joined(LineStations(rows, MetroGraph.Blue), u, v) {
      assert App.OnSomeLine(rows, u, v);
    } else if Joined(LineStations(rows, MetroGraph.Green), u, v) {
      assert App.OnSomeLine(rows, u, v);
    }
  }

  /** When every row is on Red, Blue or Green the two loaders build the same edges. */
  lemma SameEdgesOnThreeLines(rows: seq<Row>)
    requires forall i :: 0 <= i < |rows| ==> rows[i].line in {MetroGraph.Red, MetroGraph.Blue, MetroGraph.Green}
    ensures forall u, v :: MetroGraph.OnNamedLine(rows, u, v) <==> App.OnSomeLine(rows, u, v)
  {
    forall u, v ensures MetroGraph.OnNamedLine(rows, u, v) <==> App.OnSomeLine(rows, u, v) {
      NamedLineEdgesAreLineEdges(rows, u, v);
      if App.OnSomeLine(rows, u, v) {
        var l :| Joined(LineStations(rows, l), u, v);
        ShortListJoinsNothing(LineStations(rows, l), u, v);
        assert l in LinesOf(rows);
      }
    }
  }
}
