/**
 * The per-line loop of `main` (src/main.rs:20, 31-50): every line is split
 * and parsed, and the station's entry in the table is replaced by its updated
 * state. The first line that cannot be used aborts the run.
 */
module Aggregation {
  import opened Wrappers
  import Text
  import opened Records
  import opened Stats

  /** `stations_stats`: station name to accumulator. */
  type Table = map<string, State>

  /** The first unusable line, by its index in the input, and why it failed. */
  datatype Failure = Failure(line: nat, error: LineError)

  function Get(t: Table, key: string): Option<State> {
    if key in t then Some(t[key]) else None
  }

  /** One iteration of the loop: only the line's station changes (src/main.rs:37-48). */
  function Step(t: Table, r: Record): (t': Table)
    ensures t'.Keys == t.Keys + {r.key}
    ensures forall k :: k in t && k != r.key ==> t'[k] == t[k]
    ensures Get(t', r.key) == Some(Observe(Get(t, r.key), r.value))
  {
    t[r.key := Observe(Get(t, r.key), r.value)]
  }

  /** The table after the lines, or the first line that could not be used. */
  function Aggregate(lines: seq<string>, parse: string -> Option<int>): Result<Table, Failure>
  {
    if lines == [] then Ok(map[])
    else
      match Aggregate(lines[..|lines| - 1], parse)
      case Err(f) => Err(f)
      case Ok(t) =>
        match ParseLine(lines[|lines| - 1], parse)
        case Err(e) => Err(Failure(|lines| - 1, e))
        case Ok(r) => Ok(Step(t, r))
  }

  /** The loop of `main`, folding the lines into a table in place. */
  method AggregateLines(lines: seq<string>, parse: string -> Option<int>) returns (r: Result<Table, Failure>)
    ensures r == Aggregate(lines, parse)
  {
    var stationsStats: Table := map[];
    var i := 0;
    while i < |lines|
      invariant 0 <= i <= |lines|
      invariant Aggregate(lines[..i], parse) == Ok(stationsStats)
    {
      assert lines[..i + 1][..i] == lines[..i];
      var parsed := ParseLine(lines[i], parse);
      if parsed.Err? {
        AbortPersists(lines, i + 1, parse);
        return Err(Failure(i, parsed.error));
      }
      var station, value := parsed.value.key, parsed.value.value;
      var currentStateOpt := if station in stationsStats then Some(stationsStats[station]) else None;
      var currentState := Current(currentStateOpt, value);
      var updatedState := Update(currentState, value);
      stationsStats := stationsStats[station := updatedState];
      i := i + 1;
    }
    assert lines[..i] == lines;
    return Ok(stationsStats);
  }

  /** Once a prefix of the input fails, the whole input fails the same way. */
  lemma {:induction false} AbortPersists(lines: seq<string>, n: nat, parse: string -> Option<int>)
    requires n <= |lines|
    requires Aggregate(lines[..n], parse).Err?
    ensures Aggregate(lines, parse) == Aggregate(lines[..n], parse)
    decreases |lines| - n
  {
    if n == |lines| {
      assert lines[..n] == lines;
    } else {
      assert lines[..n + 1][..n] == lines[..n];
      AbortPersists(lines, n + 1, parse);
    }
  }

  // The records view: what the table is once every line has parsed.

  predicate AllParse(lines: seq<string>, parse: string -> Option<int>) {
    forall i :: 0 <= i < |lines| ==> ParseLine(lines[i], parse).Ok?
  }

  function Parsed(lines: seq<string>, parse: string -> Option<int>): (recs: seq<Record>)
    requires AllParse(lines, parse)
    ensures |recs| == |lines|
    ensures forall i :: 0 <= i < |lines| ==> ParseLine(lines[i], parse) == Ok(recs[i])
  {
    seq(|lines|, i requires 0 <= i < |lines| => ParseLine(lines[i], parse).value)
  }

  /** The table that a sequence of records produces. */
  function Tabulate(recs: seq<Record>): Table {
    if recs == [] then map[] else Step(Tabulate(recs[..|recs| - 1]), recs[|recs| - 1])
  }

  /** The values of one station, in input order. */
  function ValuesFor(recs: seq<Record>, key: string): seq<int> {
    if recs == [] then []
    else
      var init := ValuesFor(recs[..|recs| - 1], key);
      if recs[|recs| - 1].key == key then init + [recs[|recs| - 1].value] else init
  }

  /** The set of station names of the records. */
  function KeysOf(recs: seq<Record>): set<string> {
    set i | 0 <= i < |recs| :: recs[i].key
  }

  /** Aggregation succeeds exactly when every line parses. */
  lemma {:induction false} AggregateOkIff(lines: seq<string>, parse: string -> Option<int>)
    ensures Aggregate(lines, parse).Ok? <==> AllParse(lines, parse)
  {
    if lines != [] {
      var init := lines[..|lines| - 1];
      var last := ParseLine(lines[|lines| - 1], parse);
      AggregateOkIff(init, parse);
      assert forall i :: 0 <= i < |init| ==> init[i] == lines[i];
      if !AllParse(init, parse) {
        var i :| 0 <= i < |init| && ParseLine(init[i], parse).Err?;
        assert ParseLine(lines[i], parse).Err?;
        assert Aggregate(lines, parse).Err?;
      } else if last.Err? {
        assert Aggregate(lines, parse).Err?;
      } else {
        assert AllParse(lines, parse);
        assert Aggregate(lines, parse).Ok?;
      }
    }
  }

  /** When every line parses, the result is the table of the parsed records. */
  lemma {:induction false} AggregateTable(lines: seq<string>, parse: string -> Option<int>)
    requires AllParse(lines, parse)
    ensures Aggregate(lines, parse) == Ok(Tabulate(Parsed(lines, parse)))
  {
    if lines != [] {
      var init := lines[..|lines| - 1];
      assert forall i :: 0 <= i < |init| ==> init[i] == lines[i];
      AggregateTable(init, parse);
      var recs := Parsed(lines, parse);
      assert recs[..|recs| - 1] == Parsed(init, parse);
    }
  }

  /** A failed aggregation names the first line that does not parse, and why. */
  lemma {:induction false} AggregateFirstFailure(lines: seq<string>, parse: string -> Option<int>)
    requires Aggregate(lines, parse).Err?
    ensures var f := Aggregate(lines, parse).error;
      && f.line < |lines|
      && ParseLine(lines[f.line], parse) == Err(f.error)
      && AllParse(lines[..f.line], parse)
  {
    var init := lines[..|lines| - 1];
    if Aggregate(init, parse).Err? {
      AggregateFirstFailure(init, parse);
      var f := Aggregate(init, parse).error;
      assert lines[..f.line] == init[..f.line];
      assert lines[f.line] == init[f.line];
    } else {
      AggregateOkIff(init, parse);
      assert lines[..|lines| - 1] == init;
    }
  }

  /** The entry of a station is what observing its own values, in order, yields. */
  lemma {:induction false} TabulateByKey(recs: seq<Record>, key: string)
    ensures Get(Tabulate(recs), key) == Observed(ValuesFor(recs, key))
  {
    if recs != [] {
      var init := recs[..|recs| - 1];
      var last := recs[|recs| - 1];
      TabulateByKey(init, key);
      var vs := ValuesFor(recs, key);
      if last.key == key {
        assert vs[..|vs| - 1] == ValuesFor(init, key);
      }
    }
  }

  /** A station has values exactly when some record names it. */
  lemma {:induction false} ValuesForNonEmpty(recs: seq<Record>, key: string)
    ensures ValuesFor(recs, key) != [] <==> key in KeysOf(recs)
  {
    if recs != [] {
      var init := recs[..|recs| - 1];
      ValuesForNonEmpty(init, key);
      assert KeysOf(recs) == KeysOf(init) + {recs[|recs| - 1].key};
    }
  }

  /**
   * The final table: its stations are exactly those of the records, and each
   * entry is the summary of that station's values (true min and max, count
   * one more than the number of values, first value counted twice in the sum).
   */
  lemma TabulateSummary(recs: seq<Record>)
    ensures Tabulate(recs).Keys == KeysOf(recs)
    ensures forall k :: k in Tabulate(recs) ==>
      ValuesFor(recs, k) != [] && Tabulate(recs)[k] == Summary(ValuesFor(recs, k))
  {
    forall k
      ensures k in Tabulate(recs) <==> k in KeysOf(recs)
      ensures k in Tabulate(recs) ==> ValuesFor(recs, k) != [] && Tabulate(recs)[k] == Summary(ValuesFor(recs, k))
    {
      TabulateByKey(recs, k);
      ValuesForNonEmpty(recs, k);
      if ValuesFor(recs, k) != [] {
        ObservedSummary(ValuesFor(recs, k));
      }
    }
  }

  /**
   * The result of a successful run: the stations are exactly the texts before
   * the first delimiter of the lines, and each entry summarises that
   * station's values.
   */
  lemma AggregateSummary(lines: seq<string>, parse: string -> Option<int>)
    requires Aggregate(lines, parse).Ok?
    ensures AllParse(lines, parse)
    ensures var t := Aggregate(lines, parse).value;
      && t.Keys == (set i | 0 <= i < |lines| :: StationOf(lines[i]))
      && forall k :: k in t ==>
           ValuesFor(Parsed(lines, parse), k) != [] && t[k] == Summary(ValuesFor(Parsed(lines, parse), k))
  {
    AggregateOkIff(lines, parse);
    AggregateTable(lines, parse);
    var recs := Parsed(lines, parse);
    TabulateSummary(recs);
    ParsedStations(lines, parse);
  }

  /** The text before the first delimiter of a line. */
  function StationOf(line: string): string {
    line[..Text.IndexOf(line, Text.Delim)]
  }

  lemma ParsedStations(lines: seq<string>, parse: string -> Option<int>)
    requires AllParse(lines, parse)
    ensures KeysOf(Parsed(lines, parse)) == (set i | 0 <= i < |lines| :: StationOf(lines[i]))
  {
    var recs := Parsed(lines, parse);
    forall i | 0 <= i < |lines|
      ensures recs[i].key == StationOf(lines[i])
    {
      ParseLineFields(lines[i], parse);
    }
    var stations := set i | 0 <= i < |lines| :: StationOf(lines[i]);
    forall k | k in KeysOf(recs) ensures k in stations {
      var i :| 0 <= i < |recs| && recs[i].key == k;
      assert StationOf(lines[i]) == k;
    }
    forall k | k in stations ensures k in KeysOf(recs) {
      var i :| 0 <= i < |lines| && StationOf(lines[i]) == k;
      assert recs[i].key == k;
    }
  }

  /** Every entry of a table built by the loop is valid, so its count is at least 2. */
  lemma {:induction false} TabulateValid(recs: seq<Record>)
    ensures forall k :: k in Tabulate(recs) ==> Valid(Tabulate(recs)[k])
  {
    if recs != [] {
      var init := recs[..|recs| - 1];
      var last := recs[|recs| - 1];
      TabulateValid(init);
      ObserveValid(Get(Tabulate(init), last.key), last.value);
    }
  }

  /** Whatever the input, a table the run produces holds only valid entries. */
  lemma AggregateValid(lines: seq<string>, parse: string -> Option<int>)
    requires Aggregate(lines, parse).Ok?
    ensures forall k :: k in Aggregate(lines, parse).value ==> Valid(Aggregate(lines, parse).value[k])
  {
    AggregateOkIff(lines, parse);
    AggregateTable(lines, parse);
    TabulateValid(Parsed(lines, parse));
  }
}
