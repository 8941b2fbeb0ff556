/**
 * The whole run of `main` (src/main.rs:19-64) on the lines of the input:
 * aggregate every line, then print the report; a bad line aborts the run
 * before anything is printed.
 */
module Program {
  import opened Wrappers
  import opened Text
  import opened Records
  import opened Stats
  import opened Aggregation
  import opened Report
  import Decimal

  /** What the run prints, or the failure that stopped it with no output. */
  ghost function Output(lines: seq<string>, parse: string -> Option<int>, show: real -> string): Result<string, Failure> {
    match Aggregate(lines, parse)
    case Err(f) => Err(f)
    case Ok(t) =>
      AggregateValid(lines, parse);
      Ok(ReportOf(t, show))
  }

  /** `main`: the loop over the lines, then the printing. */
  method Run(lines: seq<string>, parse: string -> Option<int>, show: real -> string) returns (r: Result<string, Failure>)
    ensures r == Output(lines, parse, show)
  {
    var stats := AggregateLines(lines, parse);
    if stats.Err? {
      return Err(stats.error);
    }
    AggregateValid(lines, parse);
    var text := Render(stats.value, show);
    return Ok(text);
  }

  /**
   * The run prints something exactly when every line parses; otherwise it
   * prints nothing and reports the first line that does not parse.
   */
  lemma OutputOutcome(lines: seq<string>, parse: string -> Option<int>, show: real -> string)
    ensures Output(lines, parse, show).Ok? <==> forall i :: 0 <= i < |lines| ==> ParseLine(lines[i], parse).Ok?
    ensures Output(lines, parse, show).Err? ==>
      var f := Output(lines, parse, show).error;
      && f.line < |lines|
      && ParseLine(lines[f.line], parse) == Err(f.error)
      && forall i :: 0 <= i < f.line ==> ParseLine(lines[i], parse).Ok?
  {
    AggregateOkIff(lines, parse);
    if Aggregate(lines, parse).Err? {
      AggregateFirstFailure(lines, parse);
      var f := Aggregate(lines, parse).error;
      assert forall i :: 0 <= i < f.line ==> lines[..f.line][i] == lines[i];
    }
  }

  /** An empty input prints `{}`. */
  lemma EmptyInput(parse: string -> Option<int>, show: real -> string)
    ensures Output([], parse, show) == Ok("{}")
  {
    ReportEmpty(show);
  }

  /** A single line prints its station with min, max and mean all equal to its value. */
  lemma SingleLine(key: string, text: string, parse: string -> Option<int>, show: real -> string)
    requires Delim !in key && Delim !in text
    requires parse(text).Some?
    ensures var v := Tenths(parse(text).value);
      Output([key + [Delim] + text], parse, show) == Ok("{" + key + "=" + show(v) + "/" + show(v) + "/" + show(v) + ",}")
  {
    var v := parse(text).value;
    var line := key + [Delim] + text;
    var st := State(v, v, 2, 2 * v);
    var t := map[key := st];
    ReadsPair(line, key, text, parse);
    AggregateSnoc([], line, parse);
    assert [] + [line] == [line];
    assert Aggregate([line], parse) == Ok(t);
    SingleStateText(v, show);
    ReportSingle(key, st, show);
    var a := show(Tenths(v));
    assert "{" + key + "=" + ShowState(st, show) + ",}" == "{" + key + "=" + a + "/" + a + "/" + a + ",}";
  }

  lemma SingleStateText(v: int, show: real -> string)
    ensures ShowState(State(v, v, 2, 2 * v), show) == show(Tenths(v)) + "/" + show(Tenths(v)) + "/" + show(Tenths(v))
  {
    SingleValueMean(v);
    assert Summary([v]) == State(v, v, 2, 2 * v) by {
      assert [v][..0] == [];
      assert SumOf([v]) == v;
    }
    assert MeanOf(State(v, v, 2, 2 * v)) / 10.0 == Tenths(v);
  }

  /**
   * The scenario `Paris;10.0`, `Paris;20.0`, `Hamburg;5.5`: Paris is stored
   * with count 3 and sum 40.0, so the report gives it the mean 13.33…
   * rather than 15.0, while Hamburg's single value prints as its own mean.
   */
  lemma ParisScenario(paris: string, hamburg: string, ten: string, twenty: string, fiveFive: string, parse: string -> Option<int>)
    requires Delim !in paris && Delim !in hamburg && paris != hamburg
    requires Delim !in ten && Delim !in twenty && Delim !in fiveFive
    requires parse(ten) == Some(100) && parse(twenty) == Some(200) && parse(fiveFive) == Some(55)
    ensures var lines := [paris + [Delim] + ten, paris + [Delim] + twenty, hamburg + [Delim] + fiveFive];
      && Aggregate(lines, parse) == Ok(map[paris := State(100, 200, 3, 400), hamburg := State(55, 55, 2, 110)])
      && MeanOf(Aggregate(lines, parse).value[paris]) != 150.0
      && MeanOf(Aggregate(lines, parse).value[hamburg]) == 55.0
  {
    var l1, l2, l3 := paris + [Delim] + ten, paris + [Delim] + twenty, hamburg + [Delim] + fiveFive;
    ParisLines(paris, ten, twenty, parse);
    ReadsPair(l3, hamburg, fiveFive, parse);
    var t2 := map[paris := State(100, 200, 3, 400)];
    var t3 := map[paris := State(100, 200, 3, 400), hamburg := State(55, 55, 2, 110)];
    AggregateSnoc([l1, l2], l3, parse);
    assert [l1, l2] + [l3] == [l1, l2, l3];
    assert Get(t2, hamburg) == None;
    assert Step(t2, Record(hamburg, 55)) == t3;
    assert Aggregate([l1, l2, l3], parse) == Ok(t3);
    assert MeanOf(t3[paris]) == 400.0 / 3.0;
  }

  /** The two Paris lines of the scenario: the station is stored as (10.0, 20.0, 3, 40.0). */
  lemma ParisLines(paris: string, ten: string, twenty: string, parse: string -> Option<int>)
    requires Delim !in paris && Delim !in ten && Delim !in twenty
    requires parse(ten) == Some(100) && parse(twenty) == Some(200)
    ensures Aggregate([paris + [Delim] + ten, paris + [Delim] + twenty], parse)
         == Ok(map[paris := State(100, 200, 3, 400)])
  {
    var l1, l2 := paris + [Delim] + ten, paris + [Delim] + twenty;
    ReadsPair(l1, paris, ten, parse);
    ReadsPair(l2, paris, twenty, parse);
    var t1 := map[paris := State(100, 100, 2, 200)];
    AggregateSnoc([], l1, parse);
    assert [] + [l1] == [l1];
    assert Aggregate([l1], parse) == Ok(t1);
    AggregateSnoc([l1], l2, parse);
    assert [l1] + [l2] == [l1, l2];
    assert Get(t1, paris) == Some(State(100, 100, 2, 200));
    assert Step(t1, Record(paris, 200)) == map[paris := State(100, 200, 3, 400)];
  }

  /** A line `key;text` reads as the station and the value of the text. */
  lemma ReadsPair(line: string, key: string, text: string, parse: string -> Option<int>)
    requires line == key + [Delim] + text
    requires Delim !in key && Delim !in text
    requires parse(text).Some?
    ensures ParseLine(line, parse) == Ok(Record(key, parse(text).value))
  {
    assert Join([key, text]) == line;
    assert [key, text] + [] == [key, text];
    ParseBuiltLine(key, text, [], parse);
  }

  /** The scenario on its literal lines, read with the tenths reader. */
  lemma ParisLiteral()
    ensures Aggregate(["Paris;10.0", "Paris;20.0", "Hamburg;5.5"], Decimal.ParseTenths)
         == Ok(map["Paris" := State(100, 200, 3, 400), "Hamburg" := State(55, 55, 2, 110)])
  {
    var paris, hamburg := "Paris", "Hamburg";
    var l1, l2, l3 := paris + [Delim] + "10.0", paris + [Delim] + "20.0", hamburg + [Delim] + "5.5";
    assert l1 == "Paris;10.0" && l2 == "Paris;20.0" && l3 == "Hamburg;5.5";
    ScenarioTexts();
    ParisScenario(paris, hamburg, "10.0", "20.0", "5.5", Decimal.ParseTenths);
  }

  /** The tenths reader gives the scenario's texts the values used above. */
  lemma ScenarioTexts()
    ensures Decimal.ParseTenths("10.0") == Some(100)
    ensures Decimal.ParseTenths("20.0") == Some(200)
    ensures Decimal.ParseTenths("5.5") == Some(55)
  {
    assert Decimal.ShowTenths(100) == "10.0";
    assert Decimal.ShowTenths(200) == "20.0" by {
      assert Decimal.Digits(20) == Decimal.Digits(2) + [Decimal.DigitChar(0)];
    }
    assert Decimal.ShowTenths(55) == "5.5";
    Decimal.ParseShowTenths(100);
    Decimal.ParseShowTenths(200);
    Decimal.ParseShowTenths(55);
  }

  /** Aggregating one more line: the previous result, stepped by that line. */
  lemma AggregateSnoc(lines: seq<string>, line: string, parse: string -> Option<int>)
    ensures Aggregate(lines + [line], parse) ==
      match Aggregate(lines, parse)
      case Err(f) => Err(f)
      case Ok(t) =>
        match ParseLine(line, parse)
        case Err(e) => Err(Failure(|lines|, e))
        case Ok(r) => Ok(Step(t, r))
  {
    assert (lines + [line])[..|lines|] == lines;
  }

}
