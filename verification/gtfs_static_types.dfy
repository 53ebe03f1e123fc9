/**
  The two static reference tables read from GTFS-static text files:
  `trips.txt` gives each trip shape its headsign text, `stops.txt` gives
  each stop its attributes (among them `stop_name`). Rows arrive already
  split into fields; the first row is the header.
 */
module StaticTypes {
  import opened Common
  import opened Text

  type Row = seq<string>

  /** Shape id to headsign text. */
  type ShapeTable = map<string, string>

  /** One row of `stops.txt`, column heading to value. */
  type Stop = map<string, string>

  /** Stop id to that stop's row. */
  type StationTable = map<string, Stop>

  /**
    What one data row of `trips.txt` contributes: the shape id implied by
    the third `_`-separated piece of column 2 and the headsign in column 3.
    A row too short to read raises IndexError; an explicit shape id in
    column 6 that disagrees with the implied one fails the assertion.
   */
  function ShapeRow(row: Row): Result<(string, string)> {
    if |row| < 3 then Failure(IndexError)
    else
      var pieces := Split(row[2], "_");
      if |pieces| < 3 then Failure(IndexError)
      else
        var implicitShape := pieces[2];
        var explicitShape := if |row| >= 7 then row[6] else "";
        if |row| < 4 then Failure(IndexError)
        else if explicitShape != "" && explicitShape != implicitShape then Failure(AssertionError)
        else Success((implicitShape, row[3]))
  }

  /** Record one data row: the first row for a shape sets its headsign, later rows must agree. */
  function AddShapeRow(table: ShapeTable, row: Row): Result<ShapeTable> {
    var entry :- ShapeRow(row);
    if entry.0 !in table then Success(table[entry.0 := entry.1])
    else if table[entry.0] == entry.1 then Success(table)
    else Failure(AssertionError)
  }

  /** The data rows processed in order; the first failure stops the load. */
  function LoadShapeRows(rows: seq<Row>): Result<ShapeTable> {
    if rows == [] then Success(map[])
    else
      var n := |rows| - 1;
      var table :- LoadShapeRows(rows[..n]);
      AddShapeRow(table, rows[n])
  }

  /** `TripShapes.load_from_file`: skip the header row, then load the data rows. */
  function LoadTripShapes(rows: seq<Row>): Result<ShapeTable> {
    if rows == [] then Success(map[]) else LoadShapeRows(rows[1..])
  }

  /** Every data row can be read. */
  predicate RowsRead(rows: seq<Row>) {
    forall i :: 0 <= i < |rows| ==> ShapeRow(rows[i]).Success?
  }

  function ShapeOf(row: Row): string
    requires ShapeRow(row).Success?
  {
    ShapeRow(row).value.0
  }

  function HeadsignOf(row: Row): string
    requires ShapeRow(row).Success?
  {
    ShapeRow(row).value.1
  }

  /** Rows naming the same shape name the same headsign. */
  predicate HeadsignsAgree(rows: seq<Row>)
    requires RowsRead(rows)
  {
    forall i, j :: 0 <= i < |rows| && 0 <= j < |rows| && ShapeOf(rows[i]) == ShapeOf(rows[j])
      ==> HeadsignOf(rows[i]) == HeadsignOf(rows[j])
  }

  /** The table holds the headsign of every row's shape. */
  predicate HoldsEveryRow(table: ShapeTable, rows: seq<Row>)
    requires RowsRead(rows)
  {
    forall i :: 0 <= i < |rows| ==> ShapeOf(rows[i]) in table && table[ShapeOf(rows[i])] == HeadsignOf(rows[i])
  }

  /** The table holds only shapes that some row names. */
  predicate HoldsOnlyRows(table: ShapeTable, rows: seq<Row>)
    requires RowsRead(rows)
  {
    forall k :: k in table ==> exists i :: 0 <= i < |rows| && ShapeOf(rows[i]) == k
  }

  /** One row step: it succeeds when the row reads and does not contradict the table, and records the row. */
  lemma AddShapeRowSpec(table: ShapeTable, row: Row)
    ensures AddShapeRow(table, row).Success? <==>
      ShapeRow(row).Success? && (ShapeOf(row) in table ==> table[ShapeOf(row)] == HeadsignOf(row))
    ensures AddShapeRow(table, row).Success? ==> AddShapeRow(table, row).value == table[ShapeOf(row) := HeadsignOf(row)]
  {
  }

  /** Loading the rows is loading all but the last, then adding the last. */
  lemma LoadShapeRowsStep(rows: seq<Row>)
    requires rows != []
    ensures var n := |rows| - 1;
      LoadShapeRows(rows).Success? <==>
        LoadShapeRows(rows[..n]).Success? && AddShapeRow(LoadShapeRows(rows[..n]).value, rows[n]).Success?
    ensures var n := |rows| - 1;
      LoadShapeRows(rows).Success? ==> LoadShapeRows(rows) == AddShapeRow(LoadShapeRows(rows[..n]).value, rows[n])
  {
  }

  /** A successful load read every row. */
  lemma {:induction false} LoadedRowsRead(rows: seq<Row>)
    requires LoadShapeRows(rows).Success?
    ensures RowsRead(rows)
  {
    if rows != [] {
      var n := |rows| - 1;
      var prefix := rows[..n];
      LoadShapeRowsStep(rows);
      LoadedRowsRead(prefix);
      AddShapeRowSpec(LoadShapeRows(prefix).value, rows[n]);
      forall i | 0 <= i < |rows|
        ensures ShapeRow(rows[i]).Success?
      {
        if i < n {
          assert rows[i] == prefix[i];
        }
      }
    }
  }

  /** A successful load recorded each row's shape with its headsign. */
  lemma {:induction false} LoadedShapesHoldRows(rows: seq<Row>)
    requires LoadShapeRows(rows).Success?
    ensures RowsRead(rows)
    ensures HoldsEveryRow(LoadShapeRows(rows).value, rows)
  {
    LoadedRowsRead(rows);
    if rows != [] {
      var n := |rows| - 1;
      var prefix := rows[..n];
      LoadShapeRowsStep(rows);
      LoadedShapesHoldRows(prefix);
      var table := LoadShapeRows(prefix).value;
      AddShapeRowSpec(table, rows[n]);
      var shape := ShapeOf(rows[n]);
      var headsign := HeadsignOf(rows[n]);
      var after := table[shape := headsign];
      assert LoadShapeRows(rows).value == after;
      forall i | 0 <= i < |rows|
        ensures ShapeOf(rows[i]) in after && after[ShapeOf(rows[i])] == HeadsignOf(rows[i])
      {
        if i < n {
          assert rows[i] == prefix[i];
          var s := ShapeOf(prefix[i]);
          assert s in table && table[s] == HeadsignOf(prefix[i]);
          if s == shape {
            assert table[shape] == headsign;
          } else {
            assert after[s] == table[s];
          }
        }
      }
    }
  }

  /** A successful load recorded no shape that no row names. */
  lemma {:induction false} LoadedShapesHoldOnlyRows(rows: seq<Row>)
    requires LoadShapeRows(rows).Success?
    ensures RowsRead(rows)
    ensures HoldsOnlyRows(LoadShapeRows(rows).value, rows)
  {
    LoadedRowsRead(rows);
    if rows != [] {
      var n := |rows| - 1;
      var prefix := rows[..n];
      LoadShapeRowsStep(rows);
      LoadedShapesHoldOnlyRows(prefix);
      var table := LoadShapeRows(prefix).value;
      AddShapeRowSpec(table, rows[n]);
      var shape := ShapeOf(rows[n]);
      var after := table[shape := HeadsignOf(rows[n])];
      assert LoadShapeRows(rows).value == after;
      forall k | k in after
        ensures exists i :: 0 <= i < |rows| && ShapeOf(rows[i]) == k
      {
        if k != shape {
          var i :| 0 <= i < n && ShapeOf(prefix[i]) == k;
          assert rows[i] == prefix[i];
        }
      }
    }
  }

  /** Rows that can all be read and agree on headsigns load successfully. */
  lemma {:induction false} AgreeingRowsLoad(rows: seq<Row>)
    requires RowsRead(rows) && HeadsignsAgree(rows)
    ensures LoadShapeRows(rows).Success?
  {
    if rows != [] {
      var n := |rows| - 1;
      var prefix := rows[..n];
      assert RowsRead(prefix) by {
        forall i | 0 <= i < n
          ensures ShapeRow(prefix[i]).Success?
        {
          assert prefix[i] == rows[i];
        }
      }
      assert HeadsignsAgree(prefix) by {
        forall i, j | 0 <= i < n && 0 <= j < n && ShapeOf(prefix[i]) == ShapeOf(prefix[j])
          ensures HeadsignOf(prefix[i]) == HeadsignOf(prefix[j])
        {
          assert prefix[i] == rows[i] && prefix[j] == rows[j];
        }
      }
      AgreeingRowsLoad(prefix);
      LoadShapeRowsStep(rows);
      LoadedShapesHoldRows(prefix);
      LoadedShapesHoldOnlyRows(prefix);
      var table := LoadShapeRows(prefix).value;
      AddShapeRowSpec(table, rows[n]);
      var shape := ShapeOf(rows[n]);
      if shape in table {
        var i :| 0 <= i < n && ShapeOf(prefix[i]) == shape;
        assert rows[i] == prefix[i];
        assert table[shape] == HeadsignOf(prefix[i]);
        assert HeadsignOf(rows[i]) == HeadsignOf(rows[n]);
      }
    }
  }

  /**
    Loading succeeds exactly when every row can be read and rows for the
    same shape agree on its headsign; the table then maps each shape named
    by some row to that row's headsign, and holds nothing else.
   */
  lemma LoadShapeRowsSpec(rows: seq<Row>)
    ensures LoadShapeRows(rows).Success? <==> RowsRead(rows) && HeadsignsAgree(rows)
    ensures LoadShapeRows(rows).Success? ==> HoldsEveryRow(LoadShapeRows(rows).value, rows)
    ensures LoadShapeRows(rows).Success? ==> HoldsOnlyRows(LoadShapeRows(rows).value, rows)
  {
    if LoadShapeRows(rows).Success? {
      LoadedShapesHoldRows(rows);
      LoadedShapesHoldOnlyRows(rows);
      var table := LoadShapeRows(rows).value;
      forall i, j | 0 <= i < |rows| && 0 <= j < |rows| && ShapeOf(rows[i]) == ShapeOf(rows[j])
        ensures HeadsignOf(rows[i]) == HeadsignOf(rows[j])
      {
        assert table[ShapeOf(rows[i])] == HeadsignOf(rows[i]);
      }
    } else if RowsRead(rows) && HeadsignsAgree(rows) {
      AgreeingRowsLoad(rows);
    }
  }

  /** `TripShapes.get_headsign_text`: the stored headsign, or ValueError for an unknown shape. */
  function GetHeadsignText(shapes: ShapeTable, shapeId: string): (r: Result<string>)
    ensures r.Failure? <==> shapeId !in shapes
    ensures r.Failure? ==> r.error == ValueError
    ensures r.Success? ==> r.value == shapes[shapeId]
  {
    if shapeId !in shapes then Failure(ValueError) else Success(shapes[shapeId])
  }

  /** After a successful load, looking up the shape of any data row finds that row's headsign. */
  lemma LoadedHeadsignFound(rows: seq<Row>, i: nat)
    requires LoadTripShapes(rows).Success?
    requires 1 <= i < |rows|
    ensures ShapeRow(rows[i]).Success?
    ensures GetHeadsignText(LoadTripShapes(rows).value, ShapeOf(rows[i])) == Success(HeadsignOf(rows[i]))
  {
    LoadShapeRowsSpec(rows[1..]);
    assert rows[1..][i - 1] == rows[i];
  }

  /** `dict(zip(headings, row))`: pairs up to the shorter length, a later duplicate heading winning. */
  function ZipToStop(headings: Row, row: Row): Stop {
    if |headings| == 0 || |row| == 0 then map[]
    else if |headings| > |row| then ZipToStop(headings[..|row|], row)
    else if |row| > |headings| then ZipToStop(headings, row[..|headings|])
    else
      var n := |row| - 1;
      ZipToStop(headings[..n], row[..n])[headings[n] := row[n]]
  }

  /** The zipped row holds exactly the headings it reaches, each with the value of its last column. */
  lemma {:induction false} ZipToStopSpec(headings: Row, row: Row, h: string)
    ensures var n := if |headings| < |row| then |headings| else |row|;
      && (h in ZipToStop(headings, row) <==> exists j :: 0 <= j < n && headings[j] == h)
      && forall j :: 0 <= j < n && headings[j] == h && (forall j' :: j < j' < n ==> headings[j'] != h)
           ==> h in ZipToStop(headings, row) && ZipToStop(headings, row)[h] == row[j]
    decreases |headings| + |row|
  {
    if |headings| == 0 || |row| == 0 {
    } else if |headings| > |row| {
      ZipToStopSpec(headings[..|row|], row, h);
    } else if |row| > |headings| {
      ZipToStopSpec(headings, row[..|headings|], h);
    } else {
      var n := |row| - 1;
      ZipToStopSpec(headings[..n], row[..n], h);
    }
  }

  /** Record one data row of `stops.txt` under its first column, replacing any earlier row with that id. */
  function AddStationRow(table: StationTable, headings: Row, row: Row): Result<StationTable> {
    if |row| == 0 then Failure(IndexError) else Success(table[row[0] := ZipToStop(headings, row)])
  }

  function LoadStationRows(headings: Row, rows: seq<Row>): Result<StationTable> {
    if rows == [] then Success(map[])
    else
      var n := |rows| - 1;
      var table :- LoadStationRows(headings, rows[..n]);
      AddStationRow(table, headings, rows[n])
  }

  /** `Stations.load_from_file`: the first row gives the headings, each later row one stop. */
  function LoadStations(rows: seq<Row>): Result<StationTable> {
    if rows == [] then Success(map[]) else LoadStationRows(rows[0], rows[1..])
  }

  /** The last data row whose id column is `stopId`, if any. */
  function LastRowFor(rows: seq<Row>, stopId: string): Option<Row> {
    if rows == [] then None
    else
      var n := |rows| - 1;
      if |rows[n]| > 0 && rows[n][0] == stopId then Some(rows[n]) else LastRowFor(rows[..n], stopId)
  }

  /**
    Loading stops fails exactly when some data row is empty; otherwise each
    id maps to the zipped contents of the last row carrying that id.
   */
  lemma {:induction false} LoadStationRowsSpec(headings: Row, rows: seq<Row>, stopId: string)
    ensures LoadStationRows(headings, rows).Success? <==> forall i :: 0 <= i < |rows| ==> |rows[i]| > 0
    ensures LoadStationRows(headings, rows).Success? ==>
      match LastRowFor(rows, stopId)
      case None => stopId !in LoadStationRows(headings, rows).value
      case Some(row) =>
        stopId in LoadStationRows(headings, rows).value
        && LoadStationRows(headings, rows).value[stopId] == ZipToStop(headings, row)
  {
    if rows != [] {
      var n := |rows| - 1;
      LoadStationRowsSpec(headings, rows[..n], stopId);
      assert forall i :: 0 <= i < n ==> rows[i] == rows[..n][i];
    }
  }

  /**
    `Stations.get_station_name`: ValueError for an unknown stop; KeyError
    when the stop's row has no `stop_name` column.
   */
  function GetStationName(stations: StationTable, stopId: string): (r: Result<string>)
    ensures stopId !in stations ==> r == Failure(ValueError)
    ensures stopId in stations && "stop_name" !in stations[stopId] ==> r == Failure(KeyError)
    ensures r.Success? <==> stopId in stations && "stop_name" in stations[stopId]
    ensures r.Success? ==> r.value == stations[stopId]["stop_name"]
  {
    if stopId !in stations then Failure(ValueError)
    else if "stop_name" !in stations[stopId] then Failure(KeyError)
    else Success(stations[stopId]["stop_name"])
  }

  /**
    After a successful load, a stop's name is the `stop_name` column of the
    last row with that id, provided the header has that column within the
    row's length; an id no row carries is not found.
   */
  lemma LoadedStationName(rows: seq<Row>, stopId: string, j: nat)
    requires |rows| >= 1 && LoadStations(rows).Success?
    requires LastRowFor(rows[1..], stopId).Some?
    requires var row := LastRowFor(rows[1..], stopId).value;
      && j < |rows[0]| && j < |row| && rows[0][j] == "stop_name"
      && forall j' :: j < j' < |rows[0]| && j' < |row| ==> rows[0][j'] != "stop_name"
    ensures GetStationName(LoadStations(rows).value, stopId) == Success(LastRowFor(rows[1..], stopId).value[j])
  {
    LoadStationRowsSpec(rows[0], rows[1..], stopId);
    ZipToStopSpec(rows[0], LastRowFor(rows[1..], stopId).value, "stop_name");
  }

  lemma UnknownStationNotFound(rows: seq<Row>, stopId: string)
    requires |rows| >= 1 && LoadStations(rows).Success?
    requires LastRowFor(rows[1..], stopId).None?
    ensures GetStationName(LoadStations(rows).value, stopId) == Failure(ValueError)
  {
    LoadStationRowsSpec(rows[0], rows[1..], stopId);
  }
}
