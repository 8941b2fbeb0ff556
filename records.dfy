/**
 * Turning one input line into a station name and a measurement
 * (src/main.rs:33-35). A line without a second field, or whose second field
 * the number parser rejects, is an error; what the parser accepts is a
 * parameter of the model.
 */
module Records {
  import opened Wrappers
  import opened Text

  /** One measurement: the station name and the value in tenths. */
  datatype Record = Record(key: string, value: int)

  /** Why a line could not be used; in the program each one aborts the run. */
  datatype LineError =
    | MissingValue               // `expect("second element is the value")`
    | InvalidValue(text: string) // `expect("value can be parsed into f64")`

  /**
   * The first piece of the split is the station, the second the value text;
   * pieces after the second are ignored.
   */
  function ParseLine(line: string, parse: string -> Option<int>): Result<Record, LineError> {
    var fields := Split(line);
    if |fields| < 2 then Err(MissingValue)
    else match parse(fields[1])
      case None => Err(InvalidValue(fields[1]))
      case Some(v) => Ok(Record(fields[0], v))
  }

  /**
   * A line is usable exactly when it holds a delimiter and the text between
   * its first and second delimiter parses; the station is the text before the
   * first delimiter, and everything after a second delimiter is ignored.
   */
  lemma ParseLineFields(line: string, parse: string -> Option<int>)
    ensures Delim !in line ==> ParseLine(line, parse) == Err(MissingValue)
    ensures Delim in line ==>
      var i := IndexOf(line, Delim);
      var rest := line[i + 1..];
      var text := rest[..IndexOf(rest, Delim)];
      var r := ParseLine(line, parse);
      && (r.Ok? <==> parse(text).Some?)
      && (r.Ok? ==> r.value == Record(line[..i], parse(text).value))
      && (r.Err? ==> r.error == InvalidValue(text))
  {
    SplitFirst(line);
    SplitSecond(line);
  }

  /** A parsed station name never holds the delimiter. */
  lemma KeyHasNoDelim(line: string, parse: string -> Option<int>)
    requires ParseLine(line, parse).Ok?
    ensures Delim !in ParseLine(line, parse).value.key
  {
  }

  /** The empty line has no second field, so it is an error. */
  lemma EmptyLineFails(parse: string -> Option<int>)
    ensures ParseLine("", parse) == Err(MissingValue)
  {
  }

  /** A line built from a station name and a value text parses back into them. */
  lemma {:induction false} ParseBuiltLine(key: string, text: string, extra: seq<string>, parse: string -> Option<int>)
    requires Delim !in key && Delim !in text
    requires forall j :: 0 <= j < |extra| ==> Delim !in extra[j]
    requires parse(text).Some?
    ensures ParseLine(Join([key, text] + extra), parse) == Ok(Record(key, parse(text).value))
  {
    var parts := [key, text] + extra;
    SplitJoin(parts);
  }
}
