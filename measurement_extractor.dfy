/** `extract_measurement`: the first registered pattern that matches a message
    decides its measurement kind, and the first group that pattern captured
    gives the value. */
module MeasurementExtractor {
  import opened Wrappers
  import opened WeatherTypes

  /** The result for a message that no pattern matches. */
  const NoMeasurement := Extraction(None, None)

  /** Group `j` is the first group that took part in the match. */
  predicate IsFirstPresent(groups: seq<Option<string>>, j: int)
  {
    0 <= j < |groups| && groups[j].Some? &&
    forall l | 0 <= l < j :: groups[l].None?
  }

  /** The first group that took part in the match, or `None` where the
      search for one would raise StopIteration. */
  function FirstPresent(groups: seq<Option<string>>): (r: Option<string>)
    ensures r.None? <==> forall j | 0 <= j < |groups| :: groups[j].None?
    ensures forall j | IsFirstPresent(groups, j) :: r == groups[j]
  {
    if |groups| == 0 then None
    else if groups[0].Some? then groups[0]
    else
      var r := FirstPresent(groups[1..]);
      assert forall j | IsFirstPresent(groups, j) :: IsFirstPresent(groups[1..], j - 1);
      r
  }

  /** What the winning pattern `kind` makes of its capture groups: with no
      captured group the search for one raises; otherwise the first captured
      text is parsed, a text `float` rejects raises, and a number is paired
      with `kind`. */
  function Interpret(kind: Kind, groups: seq<Option<string>>, parse: Parser): (r: Result<Extraction, Error>)
    ensures (forall j | 0 <= j < |groups| :: groups[j].None?) ==> r == Failure(NoCapturedGroup(kind))
    ensures forall j | IsFirstPresent(groups, j) ::
      r == match parse(groups[j].value)
           case None => Failure(NotNumeric(kind, groups[j].value))
           case Some(v) => Success(Extraction(Some(kind), Some(v)))
  {
    match FirstPresent(groups)
    case None => Failure(NoCapturedGroup(kind))
    case Some(text) =>
      match parse(text)
      case None => Failure(NotNumeric(kind, text))
      case Some(v) => Success(Extraction(Some(kind), Some(v)))
  }

  /** Pattern `i` is the earliest one in registration order that matches. */
  predicate IsFirstMatch(registry: Registry, message: string, i: int)
  {
    0 <= i < |registry| && registry[i].1(message).Some? &&
    forall j | 0 <= j < i :: registry[j].1(message).None?
  }

  /** Some registered pattern matches the message. */
  predicate AnyMatch(registry: Registry, message: string)
  {
    exists i | 0 <= i < |registry| :: registry[i].1(message).Some?
  }

  /** Skipping a first pattern that does not match keeps whether any matches. */
  lemma AnyMatchPastUnmatched(registry: Registry, message: string)
    requires |registry| > 0 && registry[0].1(message).None?
    ensures AnyMatch(registry, message) <==> AnyMatch(registry[1..], message)
  {
    if AnyMatch(registry, message) {
      var i :| 0 <= i < |registry| && registry[i].1(message).Some?;
      assert registry[1..][i - 1].1(message).Some?;
    }
    if AnyMatch(registry[1..], message) {
      var i :| 0 <= i < |registry[1..]| && registry[1..][i].1(message).Some?;
      assert registry[i + 1].1(message).Some?;
    }
  }

  /** `extract_measurement(message)`: walk the registry in order and stop at
      the first pattern that matches. A successful result has a kind exactly
      when it has a value, and that kind is a registered key. */
  function ExtractMeasurement(registry: Registry, parse: Parser, message: string): (r: Result<Extraction, Error>)
    ensures r.Success? ==> (r.value.kind.None? <==> r.value.value.None?)
    ensures r.Success? && r.value.kind.Some? ==> r.value.kind.value in Kinds(registry)
    ensures r.Failure? ==> r.error.NoCapturedGroup? || r.error.NotNumeric?
    ensures r.Failure? ==> r.error.kind in Kinds(registry)
    decreases |registry|
  {
    if |registry| == 0 then Success(NoMeasurement)
    else
      var (kind, pattern) := registry[0];
      match pattern(message)
      case Some(groups) => Interpret(kind, groups, parse)
      case None =>
        var r := ExtractMeasurement(registry[1..], parse, message);
        assert Kinds(registry[1..]) <= Kinds(registry) by {
          forall k | k in Kinds(registry[1..]) ensures k in Kinds(registry) {
            var i :| 0 <= i < |registry[1..]| && registry[1..][i].0 == k;
            assert registry[i + 1].0 == k;
          }
        }
        r
  }

  /** No pattern matches exactly when the result is `(None, None)`; in
      particular an unmatched message is not an error. */
  lemma {:induction false} NoMatchIffNoMeasurement(registry: Registry, parse: Parser, message: string)
    ensures !AnyMatch(registry, message) <==> ExtractMeasurement(registry, parse, message) == Success(NoMeasurement)
    decreases |registry|
  {
    if |registry| > 0 {
      NoMatchIffNoMeasurement(registry[1..], parse, message);
      if registry[0].1(message).None? {
        AnyMatchPastUnmatched(registry, message);
      }
    }
  }

  /** First match wins: when pattern `i` is the earliest match, the result is
      decided by that pattern's groups alone. No captured group is an error,
      a first captured text `float` rejects is an error, and otherwise the
      result is pattern `i`'s key with the parse of its first captured group
      (not necessarily group 1). */
  lemma {:induction false} FirstMatchWins(registry: Registry, parse: Parser, message: string, i: int)
    requires IsFirstMatch(registry, message, i)
    ensures var kind, groups, r := registry[i].0, registry[i].1(message).value, ExtractMeasurement(registry, parse, message);
      && ((forall j | 0 <= j < |groups| :: groups[j].None?) ==> r == Failure(NoCapturedGroup(kind)))
      && (forall j | IsFirstPresent(groups, j) ::
            r == match parse(groups[j].value)
                 case None => Failure(NotNumeric(kind, groups[j].value))
                 case Some(v) => Success(Extraction(Some(kind), Some(v))))
    decreases i
  {
    if i == 0 {
    } else {
      assert IsFirstMatch(registry[1..], message, i - 1);
      FirstMatchWins(registry[1..], parse, message, i - 1);
    }
  }

  /** Registering more patterns after a group of them only matters for the
      messages none of the earlier patterns matches: no later pattern is
      consulted once one has matched. */
  lemma {:induction false} Precedence(first: Registry, later: Registry, parse: Parser, message: string)
    ensures ExtractMeasurement(first + later, parse, message) ==
      if AnyMatch(first, message) then ExtractMeasurement(first, parse, message)
      else ExtractMeasurement(later, parse, message)
    decreases |first|
  {
    if |first| == 0 {
      assert first + later == later;
    } else {
      assert (first + later)[0] == first[0];
      assert (first + later)[1..] == first[1..] + later;
      if first[0].1(message).None? {
        Precedence(first[1..], later, parse, message);
        AnyMatchPastUnmatched(first, message);
      } else {
        assert AnyMatch(first, message);
      }
    }
  }

  /** With the distinct keys of a dictionary, the kind in a result names the
      pattern that won: the pattern registered under that kind is the
      earliest one that matches. */
  lemma KindNamesWinningPattern(registry: Registry, parse: Parser, message: string, i: int)
    requires DistinctKeys(registry)
    requires 0 <= i < |registry|
    requires ExtractMeasurement(registry, parse, message).Success?
    requires ExtractMeasurement(registry, parse, message).value.kind == Some(registry[i].0)
    ensures IsFirstMatch(registry, message, i)
  {
    NoMatchIffNoMeasurement(registry, parse, message);
    var w :| 0 <= w < |registry| && registry[w].1(message).Some?;
    var m := FirstMatchOf(registry, message, w);
    FirstMatchWins(registry, parse, message, m);
    var groups := registry[m].1(message).value;
    var k :| 0 <= k < |groups| && groups[k].Some?;
    var j := FirstPresentIndex(groups, k);
    assert registry[m].0 == registry[i].0;
  }

  /** Some group at or before a captured group `k` is the first captured one. */
  lemma {:induction false} FirstPresentIndex(groups: seq<Option<string>>, k: int) returns (j: int)
    requires 0 <= k < |groups| && groups[k].Some?
    ensures j <= k && IsFirstPresent(groups, j)
    decreases k
  {
    if forall l | 0 <= l < k :: groups[l].None? {
      j := k;
    } else {
      var l :| 0 <= l < k && groups[l].Some?;
      j := FirstPresentIndex(groups, l);
    }
  }

  /** Some pattern at or before `w` is the earliest match. */
  lemma {:induction false} FirstMatchOf(registry: Registry, message: string, w: int) returns (m: int)
    requires 0 <= w < |registry| && registry[w].1(message).Some?
    ensures m <= w && IsFirstMatch(registry, message, m)
    decreases w
  {
    if forall j | 0 <= j < w :: registry[j].1(message).None? {
      m := w;
    } else {
      var j :| 0 <= j < w && registry[j].1(message).Some?;
      m := FirstMatchOf(registry, message, j);
    }
  }
}
