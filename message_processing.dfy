/** `process_messages` on a present table: apply `extract_measurement` to
    every row's `Message`, in row order, and write the results into the
    `Measurement` and `Value` columns. */
module MessageProcessing {
  import opened Wrappers
  import opened WeatherTypes
  import opened MeasurementExtractor

  /** Row `i` is the first row whose message the extractor raises on. */
  predicate IsFirstFailure(registry: Registry, parse: Parser, rows: seq<Row>, i: int)
  {
    0 <= i < |rows| && ExtractMeasurement(registry, parse, rows[i].message).Failure? &&
    forall j | 0 <= j < i :: ExtractMeasurement(registry, parse, rows[j].message).Success?
  }

  /** The row with its `Measurement` and `Value` cells set to an extraction,
      every other cell as it was. */
  function Annotated(row: Row, x: Extraction): Row
  {
    row.(measurement := x.kind, value := x.value)
  }

  /** The extractor applied down the `Message` column and written back into
      each row: it succeeds exactly when no row's extraction raises,
      and then row `i` is row `i` annotated with the extraction of its own
      message; otherwise the exception of the first row that raises. */
  function AnnotateRows(registry: Registry, parse: Parser, rows: seq<Row>): (r: Result<seq<Row>, Error>)
    ensures r.Success? <==> forall i | 0 <= i < |rows| :: ExtractMeasurement(registry, parse, rows[i].message).Success?
    ensures r.Success? ==> |r.value| == |rows|
    ensures r.Success? ==> forall i | 0 <= i < |rows| ::
      r.value[i] == Annotated(rows[i], ExtractMeasurement(registry, parse, rows[i].message).value)
    ensures r.Failure? ==> exists i :: (IsFirstFailure(registry, parse, rows, i) &&
      ExtractMeasurement(registry, parse, rows[i].message) == Failure(r.error))
  {
    if |rows| == 0 then Success([])
    else
      match ExtractMeasurement(registry, parse, rows[0].message)
      case Failure(e) =>
        assert IsFirstFailure(registry, parse, rows, 0);
        Failure(e)
      case Success(x) =>
        var rest := AnnotateRows(registry, parse, rows[1..]);
        assert forall i | 0 < i < |rows| :: rows[1..][i - 1] == rows[i];
        match rest
        case Failure(e) =>
          assert exists i :: (IsFirstFailure(registry, parse, rows, i) &&
              ExtractMeasurement(registry, parse, rows[i].message) == Failure(e)) by {
            var i :| IsFirstFailure(registry, parse, rows[1..], i) &&
              ExtractMeasurement(registry, parse, rows[1..][i].message) == Failure(e);
            assert IsFirstFailure(registry, parse, rows, i + 1);
          }
          Failure(e)
        case Success(annotated) => Success([Annotated(rows[0], x)] + annotated)
  }

  /** The table `process_messages` leaves behind, or the exception it raises
      (in which case the held table is not replaced). An empty table raises
      when its empty list of results is unpacked into the two new columns. */
  function ProcessedTable(registry: Registry, parse: Parser, table: Table): (r: Result<Table, Error>)
    ensures r.Failure? <==> (|table.rows| == 0 ||
      exists i | 0 <= i < |table.rows| :: ExtractMeasurement(registry, parse, table.rows[i].message).Failure?)
    ensures |table.rows| == 0 ==> r == Failure(NothingToUnpack)
    ensures |table.rows| > 0 ==> forall i | IsFirstFailure(registry, parse, table.rows, i) ::
      r == Failure(ExtractMeasurement(registry, parse, table.rows[i].message).error)
    ensures r.Success? ==> r.value.hasExtractionColumns && |r.value.rows| == |table.rows|
    ensures r.Success? ==> forall i | 0 <= i < |table.rows| ::
        r.value.rows[i] == Annotated(table.rows[i], ExtractMeasurement(registry, parse, table.rows[i].message).value)
  {
    if |table.rows| == 0 then Failure(NothingToUnpack)
    else
      match AnnotateRows(registry, parse, table.rows)
      case Failure(e) =>
        Failure(e)
      case Success(rows) => Success(Table(rows, true))
  }

  /** Every processed row satisfies the extractor's pairing: its
      `Measurement` is missing exactly when its `Value` is, and a present
      `Measurement` is a registered key. */
  lemma ProcessedRowsArePaired(registry: Registry, parse: Parser, table: Table)
    requires ProcessedTable(registry, parse, table).Success?
    ensures var t := ProcessedTable(registry, parse, table).value;
      forall i | 0 <= i < |t.rows| ::
        && (t.rows[i].measurement.None? <==> t.rows[i].value.None?)
        && (t.rows[i].measurement.Some? ==> t.rows[i].measurement.value in Kinds(registry))
  {
  }

  /** Running `process_messages` again on the table it produced rewrites the
      same `Measurement` and `Value` cells: the second run changes nothing. */
  lemma ProcessingTwiceIsProcessingOnce(registry: Registry, parse: Parser, table: Table)
    requires ProcessedTable(registry, parse, table).Success?
    ensures var t := ProcessedTable(registry, parse, table).value;
      ProcessedTable(registry, parse, t) == Success(t)
  {
    var t := ProcessedTable(registry, parse, table).value;
    assert forall i | 0 <= i < |t.rows| :: t.rows[i].message == table.rows[i].message;
    var t2 := ProcessedTable(registry, parse, t);
    assert t2.Success?;
    assert t2.value.rows == t.rows;
  }
}
