/**
 The station table both loaders read: one row per station-on-a-line, in file
 order, and the column operations the loaders apply to it (selecting a line's
 rows, the distinct line names, the first and last row of a station).
 */
module StationTable {

  type Station = string
  type LineName = string

  /** One row of the table. Coordinates are carried through, never computed with. */
  datatype Row = Row(station: Station, line: LineName, lat: real, lon: real)

  /** The distinct values of the `station` column. */
  function StationsOf(rows: seq<Row>): set<Station>
  {
    set i | 0 <= i < |rows| :: rows[i].station
  }

  /** The distinct values of the `line` column. */
  function LinesOf(rows: seq<Row>): set<LineName>
  {
    set i | 0 <= i < |rows| :: rows[i].line
  }

  lemma StationsOfSnoc(rows: seq<Row>, r: Row)
    ensures StationsOf(rows + [r]) == StationsOf(rows) + {r.station}
    ensures LinesOf(rows + [r]) == LinesOf(rows) + {r.line}
  {
    var s := rows + [r];
    assert s[|rows|] == r;
    forall x | x in StationsOf(rows) ensures x in StationsOf(s) {
      var i :| 0 <= i < |rows| && rows[i].station == x;
      assert s[i] == rows[i];
    }
    forall x | x in LinesOf(rows) ensures x in LinesOf(s) {
      var i :| 0 <= i < |rows| && rows[i].line == x;
      assert s[i] == rows[i];
    }
  }

  /**
   The stations of line `l` in table order: `df[df['line'] == l]['station']`.
   Every one of them is a station of the table, and a line that lists any
   station at all is one of the table's lines.
   */
  function LineStations(rows: seq<Row>, l: LineName): (r: seq<Station>)
    ensures |r| <= |rows|
    ensures forall k :: 0 <= k < |r| ==> r[k] in StationsOf(rows)
    ensures |r| > 0 ==> l in LinesOf(rows)
  {
    if rows == [] then []
    else
      var init := rows[..|rows| - 1];
      var last := rows[|rows| - 1];
      assert rows == init + [last];
      StationsOfSnoc(init, last);
      if last.line == l then LineStations(init, l) + [last.station]
      else LineStations(init, l)
  }

  /**
   The indices of the rows on line `l`, in increasing order; a reference
   description of the boolean-mask selection `df[df['line'] == l]`.
   */
  ghost function LineIndices(rows: seq<Row>, l: LineName): (idx: seq<nat>)
    ensures forall k :: 0 <= k < |idx| ==> idx[k] < |rows| && rows[idx[k]].line == l
    ensures forall j, k :: 0 <= j < k < |idx| ==> idx[j] < idx[k]
    ensures forall i :: 0 <= i < |rows| && rows[i].line == l ==> i in idx
  {
    if rows == [] then []
    else
      var init := rows[..|rows| - 1];
      var prev := LineIndices(init, l);
      assert forall k :: 0 <= k < |prev| ==> rows[prev[k]] == init[prev[k]];
      if rows[|rows| - 1].line == l then prev + [|rows| - 1] else prev
  }

  /**
   The stations of line `l` are the stations of its rows, in table order:
   entry `k` is the station of the `k`-th row on that line.
   */
  lemma {:induction false} LineStationsInOrder(rows: seq<Row>, l: LineName)
    ensures |LineStations(rows, l)| == |LineIndices(rows, l)|
    ensures forall k :: 0 <= k < |LineIndices(rows, l)| ==>
      LineStations(rows, l)[k] == rows[LineIndices(rows, l)[k]].station
  {
    if rows != [] {
      var init := rows[..|rows| - 1];
      assert rows == init + [rows[|rows| - 1]];
      LineStationsInOrder(init, l);
      var prev, before := LineIndices(init, l), LineStations(init, l);
      var idx, r := LineIndices(rows, l), LineStations(rows, l);
      if rows[|rows| - 1].line == l {
        assert idx == prev + [|rows| - 1] && r == before + [rows[|rows| - 1].station];
      } else {
        assert idx == prev && r == before;
      }
      forall k | 0 <= k < |idx| ensures r[k] == rows[idx[k]].station {
        if k < |prev| {
          assert r[k] == before[k] && idx[k] == prev[k] && rows[prev[k]] == init[prev[k]];
        }
      }
    }
  }

  /**
   A station is listed for line `l` exactly when some row puts it on `l`, and
   every line of the table lists at least one station.
   */
  lemma LineStationsMembers(rows: seq<Row>, l: LineName)
    ensures forall x :: x in LineStations(rows, l) <==>
      exists i :: 0 <= i < |rows| && rows[i].line == l && rows[i].station == x
    ensures l in LinesOf(rows) ==> |LineStations(rows, l)| > 0
  {
    LineStationsInOrder(rows, l);
    var r, idx := LineStations(rows, l), LineIndices(rows, l);
    forall x | x in r
      ensures exists i :: 0 <= i < |rows| && rows[i].line == l && rows[i].station == x
    {
      var k :| 0 <= k < |r| && r[k] == x;
      assert rows[idx[k]].line == l && rows[idx[k]].station == x;
    }
    forall x | exists i :: 0 <= i < |rows| && rows[i].line == l && rows[i].station == x
      ensures x in r
    {
      var i :| 0 <= i < |rows| && rows[i].line == l && rows[i].station == x;
      var k :| 0 <= k < |idx| && idx[k] == i;
      assert r[k] == x;
    }
    if l in LinesOf(rows) {
      var i :| 0 <= i < |rows| && rows[i].line == l;
      assert i in idx;
    }
  }

  /**
   `df['line'].unique()`: each line name of the table, once.
   */
  function UniqueLines(rows: seq<Row>): (u: seq<LineName>)
    ensures forall i, j :: 0 <= i < j < |u| ==> u[i] != u[j]
    ensures forall l :: l in u <==> l in LinesOf(rows)
  {
    if rows == [] then []
    else
      var init := rows[..|rows| - 1];
      var last := rows[|rows| - 1];
      assert rows == init + [last];
      StationsOfSnoc(init, last);
      var u := UniqueLines(init);
      if last.line in u then u else u + [last.line]
  }

  /** Index of the last row that lists station `st`. */
  function LastIndex(rows: seq<Row>, st: Station): (i: nat)
    requires st in StationsOf(rows)
    ensures i < |rows| && rows[i].station == st
    ensures forall j :: i < j < |rows| ==> rows[j].station != st
  {
    var init := rows[..|rows| - 1];
    var last := rows[|rows| - 1];
    assert rows == init + [last];
    StationsOfSnoc(init, last);
    if last.station == st then |rows| - 1 else LastIndex(init, st)
  }

  /** The last row of a station in a longer table is the new row if it lists that station. */
  lemma LastIndexSnoc(rows: seq<Row>, r: Row, st: Station)
    requires st in StationsOf(rows + [r])
    ensures st != r.station ==> st in StationsOf(rows)
    ensures LastIndex(rows + [r], st) == if r.station == st then |rows| else LastIndex(rows, st)
  {
    assert (rows + [r])[..|rows|] == rows;
    StationsOfSnoc(rows, r);
  }

  /** Index of the first row that lists station `st`. */
  function FirstIndex(rows: seq<Row>, st: Station): (i: nat)
    requires st in StationsOf(rows)
    ensures i < |rows| && rows[i].station == st
    ensures forall j :: 0 <= j < i ==> rows[j].station != st
  {
    var init := rows[..|rows| - 1];
    var last := rows[|rows| - 1];
    assert rows == init + [last];
    StationsOfSnoc(init, last);
    if st in StationsOf(init) then FirstIndex(init, st) else |rows| - 1
  }
}
