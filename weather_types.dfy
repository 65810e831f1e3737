/** The entities the weather data processor works on: the pattern registry,
    the rows of the weather table, and the errors its operations raise. */
module WeatherTypes {
  import opened Wrappers

  /** A measurement kind: a key of the `regex_patterns` configuration. */
  type Kind = string

  /** The content of a `Weather_station_ID` cell. */
  type StationId = string

  /** A compiled pattern searched anywhere in a message (what `re.search` does):
      `None` when it does not match, otherwise the match's capture groups in
      order, each `None` when its group took no part in the match. */
  type Matcher = string -> Option<seq<Option<string>>>

  /** The built-in `float` applied to a captured text: `None` when the text is
      not a number. */
  type Parser = string -> Option<real>

  /** The `regex_patterns` dictionary, in its iteration order. */
  type Registry = seq<(Kind, Matcher)>

  /** The keys of a registry. */
  function Kinds(registry: Registry): (ks: set<Kind>)
    ensures forall i | 0 <= i < |registry| :: registry[i].0 in ks
    ensures forall k | k in ks :: exists i | 0 <= i < |registry| :: registry[i].0 == k
  {
    set i | 0 <= i < |registry| :: registry[i].0
  }

  /** A dictionary has no key twice. */
  predicate DistinctKeys(registry: Registry)
  {
    forall i, j | 0 <= i < j < |registry| :: registry[i].0 != registry[j].0
  }

  /** The pair `extract_measurement` returns: `(key, value)` or `(None, None)`. */
  datatype Extraction = Extraction(kind: Option<Kind>, value: Option<real>)

  /** One row of the weather table. `measurement` and `value` are the
      `Measurement` and `Value` cells; `others` holds every other column. */
  datatype Row = Row(
    station: StationId,
    message: string,
    others: map<string, string>,
    measurement: Option<Kind>,
    value: Option<real>)

  /** The weather DataFrame. `hasExtractionColumns` says whether the
      `Measurement` and `Value` columns exist; while they do not, the rows'
      `measurement` and `value` fields are never read. */
  datatype Table = Table(rows: seq<Row>, hasExtractionColumns: bool)

  /** The exceptions the core raises. */
  datatype Error =
      /** `next` found no group that took part in the match (StopIteration) */
    | NoCapturedGroup(kind: Kind)
      /** `float` rejected the captured text (ValueError) */
    | NotNumeric(kind: Kind, text: string)
      /** the results of an empty table leave nothing to unpack into
          two columns (ValueError) */
    | NothingToUnpack
      /** grouping by a column the table does not have (KeyError) */
    | MissingColumn(name: string)
}
