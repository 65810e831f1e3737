/** `calculate_means` on a present table: group the rows by
    (`Weather_station_ID`, `Measurement`) and take the mean of `Value` in each
    group. Rows with no measurement belong to no group, as pandas drops rows
    whose group key is missing. The unstacked station-by-kind table is a map
    from (station, kind) to mean that holds only the observed pairs. */
module MeanCalculation {
  import opened Wrappers
  import opened WeatherTypes

  /** A cell of the unstacked table: (station, measurement kind). */
  type Key = (StationId, Kind)

  /** The station-by-kind table of means; a missing cell means no data. */
  type Means = map<Key, real>

  /** Row contributes a value to the group of `key`. A row whose `Value` is
      missing adds nothing to the mean, as pandas skips NaN. */
  predicate Contributes(row: Row, key: Key)
  {
    row.station == key.0 && row.measurement == Some(key.1) && row.value.Some?
  }

  /** The values of the group of `key`, in row order. */
  function GroupValues(rows: seq<Row>, key: Key): seq<real>
  {
    if |rows| == 0 then []
    else
      var last := rows[|rows| - 1];
      var vs := GroupValues(rows[..|rows| - 1], key);
      if Contributes(last, key) then vs + [last.value.value] else vs
  }

  /** A group has values exactly when some row contributes to it. */
  lemma {:induction false} GroupNonEmptyIff(rows: seq<Row>, key: Key)
    ensures |GroupValues(rows, key)| > 0 <==> exists i | 0 <= i < |rows| :: Contributes(rows[i], key)
    decreases |rows|
  {
    if |rows| > 0 {
      var prefix := rows[..|rows| - 1];
      GroupNonEmptyIff(prefix, key);
      if exists i | 0 <= i < |prefix| :: Contributes(prefix[i], key) {
        var i :| 0 <= i < |prefix| && Contributes(prefix[i], key);
        assert Contributes(rows[i], key);
      }
      if exists i | 0 <= i < |rows| :: Contributes(rows[i], key) {
        var i :| 0 <= i < |rows| && Contributes(rows[i], key);
        if i < |prefix| {
          assert Contributes(prefix[i], key);
        }
      }
    }
  }

  /** The sum of a sequence of values. */
  function Sum(xs: seq<real>): real
  {
    if |xs| == 0 then 0.0 else Sum(xs[..|xs| - 1]) + xs[|xs| - 1]
  }

  /** The running total and count pandas keeps for one group. */
  datatype Acc = Acc(sum: real, count: nat)

  /** The groupby accumulation, one row at a time: a group is present exactly
      when some row contributes to it, and then holds the sum and the number
      of its values. */
  function Accumulate(rows: seq<Row>): (acc: map<Key, Acc>)
    ensures forall key :: key in acc <==> |GroupValues(rows, key)| > 0
    ensures forall key | key in acc :: acc[key] == Acc(Sum(GroupValues(rows, key)), |GroupValues(rows, key)|)
  {
    if |rows| == 0 then map[]
    else
      var prefix := rows[..|rows| - 1];
      var last := rows[|rows| - 1];
      var acc := Accumulate(prefix);
      if last.measurement.Some? && last.value.Some? then
        var key := (last.station, last.measurement.value);
        var sofar := if key in acc then acc[key] else Acc(0.0, 0);
        assert GroupValues(rows, key) == GroupValues(prefix, key) + [last.value.value];
        assert GroupValues(rows, key)[..|GroupValues(rows, key)| - 1] == GroupValues(prefix, key);
        acc[key := Acc(sofar.sum + last.value.value, sofar.count + 1)]
      else
        acc
  }

  /** The grouped mean of `Value`, unstacked by kind: a cell holds a value
      exactly when at least one row has that station, that kind and a value,
      and the value is the sum of those rows' values divided by their count. */
  function GroupMeans(rows: seq<Row>): (m: Means)
    ensures forall key :: key in m <==> |GroupValues(rows, key)| > 0
    ensures forall key | key in m :: m[key] == Sum(GroupValues(rows, key)) / (|GroupValues(rows, key)| as real)
  {
    var acc := Accumulate(rows);
    map key | key in acc :: acc[key].sum / (acc[key].count as real)
  }

  /** The cells of the table of means are exactly the observed pairs: a
      (station, kind) cell exists exactly when some row has that station,
      that kind and a value. */
  lemma CellIffContributingRow(rows: seq<Row>, key: Key)
    ensures key in GroupMeans(rows) <==> exists i | 0 <= i < |rows| :: Contributes(rows[i], key)
  {
    GroupNonEmptyIff(rows, key);
  }

  /** Splitting the rows splits every group's values the same way. */
  lemma {:induction false} GroupValuesAppend(a: seq<Row>, b: seq<Row>, key: Key)
    ensures GroupValues(a + b, key) == GroupValues(a, key) + GroupValues(b, key)
    decreases |b|
  {
    if |b| == 0 {
      assert a + b == a;
    } else {
      var n := |b| - 1;
      assert (a + b)[..|a + b| - 1] == a + b[..n];
      assert (a + b)[|a + b| - 1] == b[n];
      GroupValuesAppend(a, b[..n], key);
    }
  }

  /** A sum splits over concatenation. */
  lemma {:induction false} SumAppend(xs: seq<real>, ys: seq<real>)
    ensures Sum(xs + ys) == Sum(xs) + Sum(ys)
    decreases |ys|
  {
    if |ys| == 0 {
      assert xs + ys == xs;
    } else {
      var n := |ys| - 1;
      assert (xs + ys)[..|xs + ys| - 1] == xs + ys[..n];
      SumAppend(xs, ys[..n]);
    }
  }

  /** Two tables whose groups have the same sizes and sums have the same
      means. */
  lemma SameSumsSameMeans(x: seq<Row>, y: seq<Row>)
    requires forall key :: |GroupValues(x, key)| == |GroupValues(y, key)|
    requires forall key :: Sum(GroupValues(x, key)) == Sum(GroupValues(y, key))
    ensures GroupMeans(x) == GroupMeans(y)
  {
    var mx, my := GroupMeans(x), GroupMeans(y);
    assert mx.Keys == my.Keys;
  }

  /** Rows without a measurement contribute to no cell: inserting one
      anywhere leaves every mean as it was. */
  lemma UnmatchedRowChangesNothing(before: seq<Row>, row: Row, after: seq<Row>)
    requires row.measurement.None?
    ensures GroupMeans(before + [row] + after) == GroupMeans(before + after)
  {
    forall key ensures GroupValues(before + [row] + after, key) == GroupValues(before + after, key) {
      GroupValuesAppend(before + [row], after, key);
      GroupValuesAppend(before, [row], key);
      GroupValuesAppend(before, after, key);
      assert GroupValues([row], key) == [] by {
        assert [row][..0] == [];
      }
    }
    SameSumsSameMeans(before + [row] + after, before + after);
  }

  /** The means do not depend on the order of the rows: swapping two parts
      of the table (as merging partial aggregations in either order would)
      gives the same table. */
  lemma RowOrderIrrelevant(a: seq<Row>, b: seq<Row>)
    ensures GroupMeans(a + b) == GroupMeans(b + a)
  {
    forall key ensures |GroupValues(a + b, key)| == |GroupValues(b + a, key)|
      && Sum(GroupValues(a + b, key)) == Sum(GroupValues(b + a, key))
    {
      GroupValuesAppend(a, b, key);
      GroupValuesAppend(b, a, key);
      SumAppend(GroupValues(a, key), GroupValues(b, key));
      SumAppend(GroupValues(b, key), GroupValues(a, key));
    }
    SameSumsSameMeans(a + b, b + a);
  }

  /** Two `temp` readings of 20 and 30 at S1, one of 10 at S2, and an
      unmatched message at S1. */
  const ExampleRows: seq<Row> := [
    Row("S1", "Temperature: 20.0", map[], Some("temp"), Some(20.0)),
    Row("S2", "Temperature: 10.0", map[], Some("temp"), Some(10.0)),
    Row("S1", "no data", map[], None, None),
    Row("S1", "Temperature: 30.0", map[], Some("temp"), Some(30.0))]

  /** The groups of the example, prefix by prefix. */
  lemma ExampleGroups()
    ensures GroupValues(ExampleRows, ("S1", "temp")) == [20.0, 30.0]
    ensures GroupValues(ExampleRows, ("S2", "temp")) == [10.0]
    ensures GroupValues(ExampleRows, ("S1", "hum")) == []
  {
    var rows := ExampleRows;
    var s1, s2, h1 := ("S1", "temp"), ("S2", "temp"), ("S1", "hum");
    var p1, p2, p3 := rows[..1], rows[..2], rows[..3];
    assert p1[..0] == [] && p2[..1] == p1 && p3[..2] == p2 && rows[..3] == p3;
    assert p1[0] == rows[0] && p2[1] == rows[1] && p3[2] == rows[2];
    assert Contributes(rows[0], s1) && !Contributes(rows[0], s2) && !Contributes(rows[0], h1);
    assert !Contributes(rows[1], s1) && Contributes(rows[1], s2) && !Contributes(rows[1], h1);
    assert !Contributes(rows[2], s1) && !Contributes(rows[2], s2) && !Contributes(rows[2], h1);
    assert Contributes(rows[3], s1) && !Contributes(rows[3], s2) && !Contributes(rows[3], h1);
    assert GroupValues(p1[..0], s1) == [] && GroupValues(p1[..0], s2) == [] && GroupValues(p1[..0], h1) == [];
    assert GroupValues(p1, s1) == [20.0] && GroupValues(p1, s2) == [] && GroupValues(p1, h1) == [];
    assert GroupValues(p2, s1) == [20.0] && GroupValues(p2, s2) == [10.0] && GroupValues(p2, h1) == [];
    assert GroupValues(p3, s1) == [20.0] && GroupValues(p3, s2) == [10.0] && GroupValues(p3, h1) == [];
  }

  /** S1's mean is 25, S2's is 10, and S1 has no `hum` cell. */
  lemma TwoStationExample()
    ensures var m := GroupMeans(ExampleRows);
      && ("S1", "temp") in m && m[("S1", "temp")] == 25.0
      && ("S2", "temp") in m && m[("S2", "temp")] == 10.0
      && ("S1", "hum") !in m
  {
    ExampleGroups();
    var m := GroupMeans(ExampleRows);
    var s1, s2, h1 := ("S1", "temp"), ("S2", "temp"), ("S1", "hum");
    assert Sum([20.0, 30.0]) == 50.0 by {
      assert [20.0, 30.0][..1] == [20.0];
      assert [20.0][..0] == [];
    }
    assert Sum([10.0]) == 10.0 by {
      assert [10.0][..0] == [];
    }
    assert s1 in m && m[s1] == Sum([20.0, 30.0]) / 2.0;
    assert s2 in m && m[s2] == Sum([10.0]) / 1.0;
    assert h1 !in m;
  }
}
