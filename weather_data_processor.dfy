/** The `WeatherDataProcessor` class: it holds the configured patterns and
    the weather table, which `process_messages` annotates in place and
    `calculate_means` summarises. */
module WeatherDataProcessing {
  import opened Wrappers
  import opened WeatherTypes
  import opened MeasurementExtractor
  import opened MessageProcessing
  import opened MeanCalculation

  class WeatherDataProcessor {
    /** `weather_csv_path`: where the table is read from. */
    const weatherStationData: string
    /** `regex_patterns`, in iteration order. */
    const patterns: Registry
    /** The built-in `float`. */
    const parseFloat: Parser
    /** `weather_df`: `None` until a table is loaded. */
    var weatherDf: Option<Table>

    /** The patterns come from a dictionary, so no key occurs twice. */
    predicate Valid()
    {
      DistinctKeys(patterns)
    }

    /** `__init__`: the configuration's path and patterns; no table yet. */
    constructor (weatherCsvPath: string, regexPatterns: Registry, parseFloat: Parser)
      requires DistinctKeys(regexPatterns)
      ensures weatherStationData == weatherCsvPath && patterns == regexPatterns
      ensures this.parseFloat == parseFloat
      ensures weatherDf == None
      ensures Valid()
    {
      weatherStationData := weatherCsvPath;
      patterns := regexPatterns;
      this.parseFloat := parseFloat;
      weatherDf := None;
    }

    /** `weather_station_mapping`: `loaded` stands for the table read from
        `weatherStationData`, which becomes the held table. */
    method WeatherStationMapping(loaded: Table)
      modifies this
      ensures weatherDf == Some(loaded)
    {
      weatherDf := Some(loaded);
    }

    /** `process_messages`: without a table, nothing changes and the result
        is `None`. With one, every row is annotated in order with the
        extraction of its own message (rows, their order and their other
        cells unchanged) and the new table is returned; if an extraction
        raises, or the table is empty, the exception is the result and the
        held table stays as it was. */
    method ProcessMessages() returns (r: Result<Option<Table>, Error>)
      modifies this
      ensures old(weatherDf).None? ==> weatherDf == None && r == Success(None)
      ensures old(weatherDf).Some? ==>
        match ProcessedTable(patterns, parseFloat, old(weatherDf).value)
        case Success(t) => weatherDf == Some(t) && r == Success(Some(t))
        case Failure(e) => weatherDf == old(weatherDf) && r == Failure(e)
    {
      if weatherDf.None? {
        return Success(None);
      }
      var held := weatherDf.value;
      var rows := held.rows;
      var annotated: seq<Row> := [];
      var i := 0;
      while i < |rows|
        invariant 0 <= i <= |rows| && |annotated| == i
        invariant forall j | 0 <= j < i :: ExtractMeasurement(patterns, parseFloat, rows[j].message).Success?
        invariant forall j | 0 <= j < i ::
          annotated[j] == Annotated(rows[j], ExtractMeasurement(patterns, parseFloat, rows[j].message).value)
      {
        var x := ExtractMeasurement(patterns, parseFloat, rows[i].message);
        if x.Failure? {
          assert IsFirstFailure(patterns, parseFloat, rows, i);
          return Failure(x.error);
        }
        annotated := annotated + [Annotated(rows[i], x.value)];
        i := i + 1;
      }
      if |annotated| == 0 {
        return Failure(NothingToUnpack);
      }
      assert ProcessedTable(patterns, parseFloat, held).value.rows == annotated;
      weatherDf := Some(Table(annotated, true));
      r := Success(weatherDf);
    }

    /** `calculate_means`: `None` without a table, the KeyError for a table
        not yet processed, and otherwise the station-by-kind means of the
        held table. */
    function CalculateMeans(): (r: Result<Option<Means>, Error>)
      reads this
      ensures weatherDf.None? ==> r == Success(None)
      ensures weatherDf.Some? && !weatherDf.value.hasExtractionColumns ==> r == Failure(MissingColumn("Measurement"))
      ensures weatherDf.Some? && weatherDf.value.hasExtractionColumns ==> r == Success(Some(GroupMeans(weatherDf.value.rows)))
    {
      match weatherDf
      case None => Success(None)
      case Some(table) =>
        if table.hasExtractionColumns then Success(Some(GroupMeans(table.rows)))
        else Failure(MissingColumn("Measurement"))
    }

    /** `process`: load `loaded`, then process its messages. The loaded table
        is held even when processing raises. */
    method Process(loaded: Table) returns (r: Result<(), Error>)
      modifies this
      ensures match ProcessedTable(patterns, parseFloat, loaded)
        case Success(t) => weatherDf == Some(t) && r == Success(())
        case Failure(e) => weatherDf == Some(loaded) && r == Failure(e)
    {
      WeatherStationMapping(loaded);
      var processed := ProcessMessages();
      match processed
      case Success(_) => r := Success(());
      case Failure(e) => r := Failure(e);
    }
  }

  /** After processing, the columns of the table of means are registered
      pattern keys: a kind no pattern has never becomes a column. */
  lemma MeanColumnsAreRegisteredKinds(registry: Registry, parse: Parser, table: Table, key: Key)
    requires ProcessedTable(registry, parse, table).Success?
    requires key in GroupMeans(ProcessedTable(registry, parse, table).value.rows)
    ensures key.1 in Kinds(registry)
  {
    var t := ProcessedTable(registry, parse, table).value;
    CellIffContributingRow(t.rows, key);
    var i :| 0 <= i < |t.rows| && Contributes(t.rows[i], key);
    ProcessedRowsArePaired(registry, parse, table);
  }

  /** After processing, every row whose message some pattern matches has a
      cell for its station and kind, and no table cell comes from a row no
      pattern matches. */
  lemma MatchedRowsHaveCells(registry: Registry, parse: Parser, table: Table, i: int)
    requires ProcessedTable(registry, parse, table).Success?
    requires 0 <= i < |table.rows|
    ensures var t := ProcessedTable(registry, parse, table).value;
      AnyMatch(registry, table.rows[i].message) <==>
        (t.rows[i].measurement.Some? && (t.rows[i].station, t.rows[i].measurement.value) in GroupMeans(t.rows))
  {
    var t := ProcessedTable(registry, parse, table).value;
    var x := ExtractMeasurement(registry, parse, table.rows[i].message);
    NoMatchIffNoMeasurement(registry, parse, table.rows[i].message);
    if t.rows[i].measurement.Some? {
      CellIffContributingRow(t.rows, (t.rows[i].station, t.rows[i].measurement.value));
      assert Contributes(t.rows[i], (t.rows[i].station, t.rows[i].measurement.value));
    }
  }
}
