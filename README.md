# 1BRC station statistics: a Dafny model

This project models the single-threaded "one billion row challenge" program
in `src/main.rs`. The program reads lines of the form `station;value`. It keeps
a `HashMap<String, State>` with min/max/count/sum for every station, and
updates that map in place, one line at a time. At the end it prints
`{station=min/max/mean,...,}` with the stations in ascending order.

The model follows the program's own structure:

- `Text`: `str::split(";")` as `Text.Split`, with its inverse `Text.Join`.
- `Records`: one line becomes a station name and a value, or a `LineError`.
- `Stats`: the `State` record and the update of lines 37-46, with reference
  definitions (`MinOf`, `MaxOf`, `SumOf`) of what the statistics should be.
- `Aggregation`: the `for` loop over the lines as the method `AggregateLines`.
  The method is proved equal to the fold `Aggregate`, and the lemmas describe
  the fold.
- `Order`: the lexicographic order of station names used by `sort()`.
- `Report`: `Display for State` and the printing. The keys are collected from
  the map (`CollectKeys`), sorted in place in an array (`SortKeys`), and printed
  in a loop (`PrintEntries`). `Render` is proved to give the report built from
  the ascending enumeration `SortedKeys`.
- `Program`: the whole run (`Run`), and scenarios.
- `Decimal`: a restricted reader for `-?digits.digit` texts, used for the
  concrete values of the scenarios.

Measurements are integers in tenths, so min, max, count and sum are exact. The
number parser is a parameter `parse: string -> Option<int>` of every operation.
The number-to-text conversion is a parameter `show: real -> string`, and the
mean is the exact quotient `sum / count`.

Behaviour of the program that the model keeps:

- Every unusable line aborts the whole run, and nothing is printed. A line
  without `;` (the empty line too) is unusable, and so is a value the parser
  rejects. No line is skipped and counted.
- There are no workers, partitions or merge step. The loop is sequential.
- Every entry is followed by `,` (the last one too), and there is no space
  after it.
- A new station is inserted with count 1 and sum `v` and then updated with
  `v` again. So a station seen n times ends with count n + 1, and its sum holds
  its first value twice. The printed mean is therefore
  `(total + first) / (n + 1)`. The model states this as printed (see Findings).

## Model

| member | source | states |
|---|---|---|
| Text.IndexOf | src/main.rs:33 | the result is the position of the first `;`, or the length when there is none |
| Text.Split | src/main.rs:33 | splitting gives at least one piece, and no piece holds `;` |
| Text.SplitSecond | src/main.rs:33-35 | a second piece exists exactly when the line holds `;`; it is the text between the first and second `;` |
| Text.JoinSplit | src/main.rs:33 | joining the pieces with `;` gives back the line |
| Text.SplitJoin | src/main.rs:33 | splitting pieces joined with `;` gives back the pieces |
| Records.ParseLine | src/main.rs:33-35 | no contract of its own, defined by its body: split on `;`, a missing second field is `MissingValue`, an unparsable one `InvalidValue`; its properties are the lemmas below |
| Records.ParseLineFields | src/main.rs:33-35 | a line is usable iff it holds `;` and its second field parses; the station is the text before the first `;`; text after a second `;` is ignored; otherwise the error names the cause |
| Records.EmptyLineFails | src/main.rs:33-35 | the empty line has no value field and is an error |
| Records.KeyHasNoDelim | src/main.rs:34 | a parsed station name never holds `;` |
| Records.ParseBuiltLine | src/main.rs:33-35 | `key;text;...` parses back to the key and the value of text, whatever follows a second `;` |
| Stats.Current | src/main.rs:37-39 | no contract, defined by its body: the stored state, or the fresh state `(v, v, 1, v)` when the station is absent |
| Stats.Update | src/main.rs:41-46 | the new min is the smaller of the old min and the value, and one of them; the same for max; count grows by one; sum grows by the value |
| Stats.Observe | src/main.rs:37-46 | no contract, defined by its body: `Update` applied to `Current`, so a new station is counted twice; `ObserveValid` and `ObservedSummary` state its effect |
| Stats.MinOf | src/main.rs:41 | the reference minimum is a value of the sequence and at most every value |
| Stats.MaxOf | src/main.rs:42 | the reference maximum is a value of the sequence and at least every value |
| Stats.ObservedSummary | src/main.rs:37-46 | observing a station's values in order gives their true min and max, count n + 1, and sum total + first value |
| Stats.ObserveValid | src/main.rs:37-46 | every stored state has count >= 2 and min <= max; a new station is stored as (v, v, 2, 2v) |
| Stats.SummaryFacts | src/main.rs:41-42 | min and max are values that occurred, they bound all values, and min <= max |
| Stats.SingleValueMean | src/main.rs:14 | for a station seen once the printed mean is its value |
| Stats.MeanQuirk | src/main.rs:37-44 | the printed mean equals the true mean iff the first value equals the true mean |
| Stats.ObservedIntendedStats | src/main.rs:37-44 | with the corrected update, count is the number of values, sum their total, and the mean their mean |
| Aggregation.Step | src/main.rs:48 | one line adds its station to the key set; it changes that station's entry to the observed state and every other entry stays the same |
| Aggregation.Aggregate | src/main.rs:31-50 | no contract, defined by its body: the fold of `Step` over the lines that stops at the first unusable line; the lemmas below state what it computes |
| Aggregation.AggregateLines | src/main.rs:31-50 | the in-place loop over the lines returns exactly the fold `Aggregate`: the table, or the first failing line |
| Aggregation.AbortPersists | src/main.rs:34-35 | once a prefix of the input fails, the whole run fails with the same error |
| Aggregation.AggregateOkIff | src/main.rs:31-35 | the run succeeds iff every line parses |
| Aggregation.AggregateTable | src/main.rs:31-50 | when every line parses, the table is the fold of the parsed records |
| Aggregation.AggregateFirstFailure | src/main.rs:34-35 | a failure names a line that does not parse and the reason, and all earlier lines parse |
| Aggregation.TabulateByKey | src/main.rs:37-48 | a station's entry depends only on that station's own values, in order |
| Aggregation.ValuesForNonEmpty | src/main.rs:37-48 | a station has values iff some record names it |
| Aggregation.TabulateSummary | src/main.rs:37-48 | the table's keys are the stations of the records, and each entry is the summary of that station's values |
| Aggregation.AggregateSummary | src/main.rs:31-50 | after a successful run the key set is exactly the set of texts before the first `;` of the lines, and each entry is its summary |
| Aggregation.TabulateValid | src/main.rs:37-48 | every entry of the table has count >= 2, so the mean never divides by zero |
| Aggregation.AggregateValid | src/main.rs:14 | every entry of a successful run's table can be printed |
| Order.LessIrreflexive | src/main.rs:55 | no name sorts before itself |
| Order.LessAsymmetric | src/main.rs:55 | two names never sort before each other |
| Order.LessTransitive | src/main.rs:55 | the order of names is transitive |
| Order.LessTotal | src/main.rs:55 | any two different names are ordered one way or the other |
| Order.LessEqTransitive | src/main.rs:55 | the non-strict order is transitive |
| Order.LessEqAntisymmetric | src/main.rs:55 | names ordered both ways are equal |
| Order.NotLess | src/main.rs:55 | not sorting after is sorting before or being equal |
| Order.Less | src/main.rs:55 | no contract, defined by its body: lexicographic order on characters, a proper prefix first; the lemmas above make it a strict total order |
| Report.CollectKeys | src/main.rs:54 | the collected names are the table's keys, each exactly once |
| Report.SortKeys | src/main.rs:55 | the array is sorted in place and is a permutation of what it was |
| Report.LeastExists | src/main.rs:55 | every non-empty set of names has a least element |
| Report.Least | src/main.rs:55 | the chosen name is in the set and sorts before or equal to every other |
| Report.SortedKeys | src/main.rs:54-55 | the ascending enumeration is strictly increasing and holds every key of the table exactly once |
| Report.SortedKeysCharacterized | src/main.rs:54-55 | any strictly increasing enumeration of the keys is that one |
| Report.SortedUnique | src/main.rs:55 | two sorted sequences with the same elements are equal, so the sort's result is determined |
| Report.ShowState | src/main.rs:12-16 | no contract, defined by its body: `min/max/mean` with min and max in tenths shown by `show` and the mean `MeanOf(s) / 10` |
| Report.Entry | src/main.rs:59 | no contract, defined by its body: `name=` then the state and a trailing `,` |
| Report.Entries | src/main.rs:57-60 | no contract, defined by its body: the entries of the given names, concatenated in order |
| Report.PrintEntries | src/main.rs:57-60 | the printing loop writes `name=min/max/mean,` for each name, in the given order |
| Report.Render | src/main.rs:52-61 | the output is `{`, one entry per station in strictly ascending order with a trailing comma each, then `}` |
| Report.ReportEmpty | src/main.rs:52-61 | an empty table prints `{}` |
| Report.ReportSingle | src/main.rs:52-61 | a table with one station prints `{name=min/max/mean,}` |
| Program.Run | src/main.rs:19-64 | the run returns the report of the aggregated table, or the first failing line with no output |
| Program.OutputOutcome | src/main.rs:31-35 | there is output iff every line parses; otherwise the failure names the first unusable line and why |
| Program.EmptyInput | src/main.rs:52-61 | an empty input prints `{}` |
| Program.SingleLine | src/main.rs:31-61 | one line `name;value` prints `{name=v/v/v,}` |
| Program.ParisScenario | src/main.rs:37-44 | `Paris;10.0`, `Paris;20.0`, `Hamburg;5.5` give Paris count 3 and sum 40.0, so its printed mean is not 15.0; Hamburg's mean is 5.5 |
| Program.ParisLiteral | src/main.rs:31-50 | the lines `Paris;10.0`, `Paris;20.0`, `Hamburg;5.5` read with the tenths reader give Paris (100, 200, 3, 400) and Hamburg (55, 55, 2, 110) |
| Program.AggregateSnoc | src/main.rs:31-50 | one more line steps the previous result or reports that line |
| Program.ReadsPair | src/main.rs:33-35 | `key;text` reads as the key and the value of the text |
| Program.ScenarioTexts | src/main.rs:35 | the tenths reader reads `10.0`, `20.0` and `5.5` as 100, 200 and 55 tenths |
| Decimal.Digits | src/main.rs:35 | the decimal digits of a number are a non-empty string of digits |
| Decimal.DigitsRoundTrip | src/main.rs:35 | reading the digits of a number gives the number |
| Decimal.ParseTenths | src/main.rs:35 | no contract, defined by its body: an optional `-`, digits, `.` and one digit, read as tenths; otherwise `None`; `ParseShowTenths` and `ParseTenthsShape` state its properties |
| Decimal.ParseShowTenths | src/main.rs:35 | any value in tenths, written out and read back, is itself |
| Decimal.ParseTenthsShape | src/main.rs:35 | an accepted text ends in a point and one digit and holds no `;` |

## Findings

| source | as written | input that shows it | evidently intended | confidence | as-written member | corrected member |
|---|---|---|---|---|---|---|
| src/main.rs:37-44 | the state inserted for a new station already counts the value (`count: 1, sum: value`), and the update then counts it again, so count is n + 1 and the sum holds the first value twice | `Paris;10.0`, `Paris;20.0` prints Paris's mean as 40.0/3 = 13.33… | count n, sum of the values, mean 15.0 | not executed; proved on the model | Program.ParisScenario | Stats.ObservedIntendedStats |

`Stats.ObserveIntended` is the corrected update. A new station starts from
count 1 and sum `v`, and only a station already present is updated again.
`Stats.ObservedIntendedStats` proves that it gives count n, the true sum and
the true mean. The rest of the model (`Aggregate`, `Render`, `Run`) keeps the
update as written, because that is what the program prints. `Stats.MeanQuirk`
says exactly when the two means agree.

## Left out

- Argument handling, the default path `measurements.txt`, `File::open` and the
  I/O errors of `BufReader::lines` (src/main.rs:23-32): I/O plumbing. The input
  is a sequence of lines that have already had their line terminators removed.
- The lexical grammar of `parse::<f64>()` (src/main.rs:35): a foreign library
  parser. It is the parameter `parse`, which returns a value in tenths or fails.
  `Decimal.ParseTenths` accepts far fewer texts than Rust does. The model has no
  values such as `inf` or `NaN`, which Rust's parser accepts.
- Floating-point behaviour: rounding in `sum` and in `sum / count`, and the text
  that `{}` prints for an `f64` (src/main.rs:14, 44). Sums and means are exact,
  and `show` stands for the number-to-text conversion. Nothing is proved about
  rounding.
- Report.Render: requires every count to be positive. The program would print
  NaN or infinity for a zero count; that case cannot arise, because
  `Aggregation.AggregateValid` proves every count is at least 2.
- Stats.Update: does not model the `u64` overflow of `count + 1`, because it
  would take 2^64 lines.
- `HashMap` hashing and iteration order (src/main.rs:20, 54): the table is a
  Dafny `map`. `Report.CollectKeys` returns the keys in an arbitrary order, and
  only the sorted order reaches the output.
- `Vec::sort` is a stable merge sort in the library. `Report.SortKeys` is an
  insertion sort with the same contract (sorted, a permutation). The keys are
  distinct, so stability plays no part.
- The output is built as one string rather than printed piece by piece with
  `print!`. Every abort happens before the first `print!`, so in both cases a
  failed run prints nothing.
- The `expect` calls at src/main.rs:34 and src/main.rs:58 cannot fail. Split
  always gives a first piece, and every sorted key is in the table; the model
  proves both instead of modelling a panic.
