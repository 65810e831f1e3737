# Weather data processor: measurement extraction and means

A Dafny model of the `WeatherDataProcessor` class of a small
agricultural-analytics pipeline. The class holds an ordered registry of
named patterns (`regex_patterns`) and a weather table (`weather_df`) whose
rows carry a `Weather_station_ID` and a free-text `Message`.

- `extract_measurement` walks the patterns in registration order. The first
  pattern that matches anywhere in the message wins. Its key is paired with
  the `float` of the first capture group that took part in the match. A
  message no pattern matches gives `(None, None)`.
- `process_messages` applies the extractor to every row's message in row
  order. It writes the results into two new columns, `Measurement` and
  `Value`, of the held table.
- `calculate_means` groups the rows by (station, measurement) and averages
  `Value`. Rows without a measurement fall out of the grouping. The result
  is a station-by-kind table that holds only the observed pairs.

Files and modules:

- `wrappers.dfy` (`Wrappers`): `Option` and `Result`.
- `weather_types.dfy` (`WeatherTypes`): kinds, the pattern registry, rows,
  tables and the exceptions the core raises.
- `measurement_extractor.dfy` (`MeasurementExtractor`): `extract_measurement`.
- `message_processing.dfy` (`MessageProcessing`): the table that
  `process_messages` produces.
- `mean_calculation.dfy` (`MeanCalculation`): the grouped means.
- `weather_data_processor.dfy` (`WeatherDataProcessing`): the class itself,
  with its mutable `weatherDf` field, plus lemmas about the whole pipeline.

Modelling choices:

- The regular-expression engine is an abstract `Matcher`. It maps a message
  to `None` (no match) or to the match's groups, each `None` when the group
  did not take part. `float()` is an abstract `Parser` that may fail. Both
  are fixed when the object is constructed.
- The dictionary of patterns is a sequence of `(kind, matcher)` pairs in
  iteration order. The constructor requires distinct keys, as a dictionary
  has.
- Exceptions are `Result` failures:
  - `NoCapturedGroup`: `next` finds no captured group (StopIteration).
  - `NotNumeric`: `float` rejects the captured text.
  - `NothingToUnpack`: the results of an empty table cannot be unpacked into
    two columns (ValueError).
  - `MissingColumn("Measurement")`: grouping a table that has no
    `Measurement` column (KeyError).
- An exception raised while `process_messages` maps the extractor happens
  before the columns are assigned. So the held table is left as it was.
- Values are mathematical reals.
- The mean is computed the way a groupby computes it: a running (sum, count)
  per group. It is proved equal to a reference definition: collect the
  group's values in row order, then divide their sum by their number.

What the code does not do:

- It does not catch extraction errors per row. One failing row makes
  `process_messages` raise, and nothing is written.
- It raises no dedicated error for an empty dataset. An empty table fails at
  the unpacking on line 116.
- It does not validate the patterns when the object is constructed.
- It keeps no match statistics.

## Model

| member | source | states |
|---|---|---|
| `MeasurementExtractor.ExtractMeasurement` | weather_data_processor.py:99-105 | A successful result has a kind exactly when it has a value, and that kind is a registered key. A failure is one of the two exceptions of line 103 and names a registered key. |
| `MeasurementExtractor.FirstPresent` | weather_data_processor.py:103 | The generator passed to `next` finds nothing exactly when every group is `None`. Otherwise it yields the first group that is not `None`. |
| `MeasurementExtractor.Interpret` | weather_data_processor.py:103 | For the winning pattern: no captured group raises StopIteration; a first captured text that `float` rejects raises ValueError; otherwise the result is (the pattern's key, the parse of the first captured group). |
| `MeasurementExtractor.NoMatchIffNoMeasurement` | weather_data_processor.py:99-105 | No pattern matches the message if and only if the result is `(None, None)`, which is not an error. |
| `MeasurementExtractor.FirstMatchWins` | weather_data_processor.py:99-103 | When pattern i is the earliest match, its groups alone decide the result. No captured group raises StopIteration. A first captured text that `float` rejects raises. Otherwise the result is (key i, parse of the first captured group), which need not be group 1. |
| `MeasurementExtractor.Precedence` | weather_data_processor.py:99-103 | Extracting with `first + later` gives the result of `first` when some pattern of `first` matches, and the result of `later` otherwise. No later pattern is consulted once one matches. |
| `MeasurementExtractor.KindNamesWinningPattern` | weather_data_processor.py:99-103 | With distinct keys, the pattern registered under the returned kind is the earliest pattern that matches the message. |
| `MessageProcessing.AnnotateRows` | weather_data_processor.py:115 | Applying the extractor down the `Message` column succeeds exactly when no row's extraction raises. Then there are as many rows as before, and row i is row i with its `Measurement`/`Value` set to the extraction of its own message. Otherwise the exception is the first failing row's. |
| `MessageProcessing.ProcessedTable` | weather_data_processor.py:114-116 | The table processing produces. It fails exactly when the table is empty (the unpacking error) or some row's extraction raises, and then with the first failing row's exception. On success the table has the two columns, the same row count and order, each row annotated with the extraction of its own message, and every other cell untouched. |
| `MessageProcessing.ProcessedRowsArePaired` | weather_data_processor.py:115-116 | In a processed table, every row's `Measurement` is missing exactly when its `Value` is, and a present `Measurement` is a registered key. |
| `MessageProcessing.ProcessingTwiceIsProcessingOnce` | weather_data_processor.py:114-116 | Processing an already processed table again succeeds and returns it unchanged. |
| `MeanCalculation.Accumulate` | weather_data_processor.py:130 | The per-group running totals: a group is present exactly when some row contributes to it, and then it holds the sum and the number of that group's values. |
| `MeanCalculation.GroupMeans` | weather_data_processor.py:130-132 | A (station, kind) cell exists exactly when that group has values. Its value is the sum of those values divided by their count. |
| `MeanCalculation.CellIffContributingRow` | weather_data_processor.py:130-132 | A cell exists if and only if at least one row has that station, that non-`None` kind and a value. |
| `MeanCalculation.UnmatchedRowChangesNothing` | weather_data_processor.py:130 | Inserting a row whose `Measurement` is `None` anywhere in the table leaves every cell of the means unchanged. |
| `MeanCalculation.RowOrderIrrelevant` | weather_data_processor.py:130 | The means of `a + b` equal the means of `b + a`. |
| `MeanCalculation.TwoStationExample` | weather_data_processor.py:130-132 | The input is temp readings 20 and 30 at S1, 10 at S2, and an unmatched row at S1. The result gives S1.temp = 25 and S2.temp = 10, and there is no S1.hum cell. |
| `WeatherDataProcessing.WeatherDataProcessor.constructor` | weather_data_processor.py:36-47 | The object keeps the configured path and patterns and holds no table. `Valid()` holds: the patterns have distinct keys, as a dictionary does. |
| `WeatherDataProcessing.WeatherDataProcessor.WeatherStationMapping` | weather_data_processor.py:80-86 | The given loaded table becomes the held table. |
| `WeatherDataProcessing.WeatherDataProcessor.ProcessMessages` | weather_data_processor.py:107-120 | Without a table, nothing changes and the result is `None`. With one, on success the held table becomes the processed table and is returned. On an exception the exception is the result and the held table is unchanged. |
| `WeatherDataProcessing.WeatherDataProcessor.CalculateMeans` | weather_data_processor.py:122-135 | Without a table the result is `None`. A table without a `Measurement` column raises KeyError. Otherwise the result is the grouped means of the held rows. |
| `WeatherDataProcessing.WeatherDataProcessor.Process` | weather_data_processor.py:137-143 | The loaded table is processed and held. If processing raises, the loaded table stays held and the exception is the result. |
| `WeatherDataProcessing.MeanColumnsAreRegisteredKinds` | weather_data_processor.py:130-132 | After processing, every column of the table of means is a registered pattern key. |
| `WeatherDataProcessing.MatchedRowsHaveCells` | weather_data_processor.py:114-132 | After processing, a row's message matches some pattern if and only if the row has a measurement and a cell for its station and kind exists. |

## Left out

- Logging: `initialize_logging` (weather_data_processor.py:49-78) and every logger call only change global logger state.
- Reading the CSV over the network (`read_from_web_CSV`, line 84): the loaded table is a parameter of `WeatherStationMapping` and `Process`.
- `data_ingestion.py` is not part of this model. It holds thin wrappers over database and CSV I/O.
- `data_validation.py` is not part of this model. It holds fixed-file test checks with no algorithm. Its line 32 compares a table to a tuple.
- Regular-expression semantics and the text accepted by `float()`: both are abstract parameters.
- Floating point: sums and means are exact reals, and IEEE rounding is not modelled.
- Non-finite values are not modelled. `float` (line 103) accepts "nan", "inf" and texts too large for a double (such as "1e999") without raising. It returns NaN or infinity, and the mean at line 130 then skips a NaN or becomes infinite. `Parser` yields only a finite real or a failure, so no run that produces such a value is represented.
- Missing columns other than `Measurement` are not modelled. A table without `Message` raises KeyError at line 115. A table without `Weather_station_ID`, or with `Measurement` but no `Value`, raises KeyError at line 130. Every `Row` has a station and a message, and one flag, `hasExtractionColumns`, stands for both extraction columns together.
- In-place update and aliasing of the DataFrame are not modelled. Line 116 adds the columns to the same object that line 84 stored and line 120 returns, so any other holder of that object sees them. In the model the table is a value, and `ProcessMessages` replaces `weatherDf` with a new one.
- pandas conversion of `None` to NaN in the `Value` column is not modelled. Missing values stay `None`. A group whose rows all lack a value gets no cell, where pandas stores NaN, which also reads as no data.
- A missing (NaN) station identifier, which pandas would also drop from the grouping, is not modelled: stations are always strings.
- A non-string `Message` cell, on which `re.search` would raise TypeError, is not modelled: messages are always strings.
- The row and column indexes of the unstacked table are not listed separately. They are the stations and kinds of the map's keys.
