/**
 * The per-station accumulator `State` (src/main.rs:4-10) and the update that
 * one measurement makes to it (src/main.rs:37-46). Measurements are integers
 * in tenths, so min, max, count and sum are exact.
 */
module Stats {
  import opened Wrappers

  datatype State = State(min: int, max: int, count: nat, sum: int)

  /**
   * `get_or_insert` (src/main.rs:37-39): the stored state, or, for a station
   * not seen before, a state that already counts the value once.
   */
  function Current(entry: Option<State>, v: int): State {
    match entry
    case Some(s) => s
    case None => State(v, v, 1, v)
  }

  /** The new state computed from the current one and a value (src/main.rs:41-46). */
  function Update(s: State, v: int): (r: State)
    ensures r.min <= s.min && r.min <= v && (r.min == s.min || r.min == v)
    ensures r.max >= s.max && r.max >= v && (r.max == s.max || r.max == v)
    ensures r.count == s.count + 1
    ensures r.sum == s.sum + v
  {
    var newMin := if s.min < v then s.min else v;
    var newMax := if s.max > v then s.max else v;
    State(newMin, newMax, s.count + 1, s.sum + v)
  }

  /** What src/main.rs:37-46 stores for a station after one more value. */
  function Observe(entry: Option<State>, v: int): State {
    Update(Current(entry, v), v)
  }

  /** The entry of one station after its values, in input order, were observed. */
  function Observed(vs: seq<int>): Option<State> {
    if vs == [] then None
    else Some(Observe(Observed(vs[..|vs| - 1]), vs[|vs| - 1]))
  }

  // Reference definitions of the statistics of a sequence of values.

  function MinOf(vs: seq<int>): (m: int)
    requires |vs| > 0
    ensures m in vs
    ensures forall i :: 0 <= i < |vs| ==> m <= vs[i]
  {
    if |vs| == 1 then vs[0]
    else
      var m' := MinOf(vs[..|vs| - 1]);
      assert vs == vs[..|vs| - 1] + [vs[|vs| - 1]];
      if vs[|vs| - 1] < m' then vs[|vs| - 1] else m'
  }

  function MaxOf(vs: seq<int>): (m: int)
    requires |vs| > 0
    ensures m in vs
    ensures forall i :: 0 <= i < |vs| ==> vs[i] <= m
  {
    if |vs| == 1 then vs[0]
    else
      var m' := MaxOf(vs[..|vs| - 1]);
      assert vs == vs[..|vs| - 1] + [vs[|vs| - 1]];
      if vs[|vs| - 1] > m' then vs[|vs| - 1] else m'
  }

  function SumOf(vs: seq<int>): int {
    if vs == [] then 0 else SumOf(vs[..|vs| - 1]) + vs[|vs| - 1]
  }

  /**
   * What the program ends up storing for a station whose values are `vs`:
   * the true minimum and maximum, but a count one too high and a sum that
   * holds the first value twice, because the inserted state already counts
   * the first value and is then updated with it again.
   */
  function Summary(vs: seq<int>): State
    requires |vs| > 0
  {
    State(MinOf(vs), MaxOf(vs), |vs| + 1, SumOf(vs) + vs[0])
  }

  /** Observing the values one at a time yields their summary. */
  lemma {:induction false} ObservedSummary(vs: seq<int>)
    requires |vs| > 0
    ensures Observed(vs) == Some(Summary(vs))
  {
    var last := vs[|vs| - 1];
    if |vs| == 1 {
      assert vs == [last] && vs[..0] == [];
      assert SumOf(vs) == last;
      assert Observed(vs) == Some(Observe(None, last));
    } else {
      var init := vs[..|vs| - 1];
      ObservedSummary(init);
      assert init[0] == vs[0];
      assert MinOf(vs) == if last < MinOf(init) then last else MinOf(init);
      assert MaxOf(vs) == if last > MaxOf(init) then last else MaxOf(init);
      assert SumOf(vs) == SumOf(init) + last;
    }
  }

  /** The invariant of every stored state. */
  predicate Valid(s: State) {
    s.count >= 2 && s.min <= s.max
  }

  /** Every state the update can produce is valid, whether or not the station was new. */
  lemma ObserveValid(entry: Option<State>, v: int)
    requires entry.Some? ==> Valid(entry.value)
    ensures Valid(Observe(entry, v))
    ensures entry.None? ==> Observe(entry, v) == State(v, v, 2, 2 * v)
  {
  }

  /** The summary of any values is valid, and its min and max are values that occurred. */
  lemma SummaryFacts(vs: seq<int>)
    requires |vs| > 0
    ensures Valid(Summary(vs))
    ensures Summary(vs).min in vs && Summary(vs).max in vs
    ensures forall i :: 0 <= i < |vs| ==> Summary(vs).min <= vs[i] <= Summary(vs).max
  {
  }

  /** The mean the report prints for a state, in tenths. */
  function MeanOf(s: State): real
    requires s.count > 0
  {
    s.sum as real / s.count as real
  }

  /** With a single value the doubled first value cancels out: the mean is that value. */
  lemma SingleValueMean(v: int)
    ensures MeanOf(Summary([v])) == v as real
  {
    assert [v][..0] == [];
    assert SumOf([v]) == v;
    assert Summary([v]) == State(v, v, 2, 2 * v);
  }

  /**
   * The printed mean equals the arithmetic mean of the values exactly when the
   * first value is itself that mean.
   */
  lemma MeanQuirk(vs: seq<int>)
    requires |vs| > 0
    ensures MeanOf(Summary(vs)) == SumOf(vs) as real / |vs| as real <==> vs[0] * |vs| == SumOf(vs)
  {
    ShiftedMeanOf(Summary(vs), SumOf(vs), vs[0], |vs|);
  }

  lemma ShiftedMeanOf(s: State, t: int, f: int, n: nat)
    requires n > 0 && s.sum == t + f && s.count == n + 1
    ensures MeanOf(s) == t as real / n as real <==> f * n == t
  {
    ShiftedMean(t, f, n);
  }

  /** (t + f) / (n + 1) == t / n exactly when f * n == t. */
  lemma ShiftedMean(t: int, f: int, n: nat)
    requires n > 0
    ensures (t + f) as real / (n + 1) as real == t as real / n as real <==> f * n == t
  {
    var a, b, c, d := (t + f) as real, (n + 1) as real, t as real, n as real;
    CrossMultiply(a, b, c, d);
    assert a * d == (t * n + f * n) as real;
    assert c * b == (t * n + t) as real;
  }

  /** Two fractions with positive denominators are equal exactly when their cross products are. */
  lemma CrossMultiply(a: real, b: real, c: real, d: real)
    requires b > 0.0 && d > 0.0
    ensures a / b == c / d <==> a * d == c * b
  {
    assert a == (a / b) * b;
    assert c == (c / d) * d;
    if a / b == c / d {
      assert a * d == (a / b) * b * d;
      assert c * b == (c / d) * d * b;
    }
    if a * d == c * b {
      assert a / b == (a * d) / (b * d);
      assert c / d == (c * b) / (d * b);
    }
  }

  /**
   * The evidently intended update: a new station starts from the value with
   * count 1, and only a station already present is updated.
   */
  function ObserveIntended(entry: Option<State>, v: int): State {
    match entry
    case Some(s) => Update(s, v)
    case None => State(v, v, 1, v)
  }

  function ObservedIntended(vs: seq<int>): Option<State> {
    if vs == [] then None
    else Some(ObserveIntended(ObservedIntended(vs[..|vs| - 1]), vs[|vs| - 1]))
  }

  /** With the intended update, count is the number of values and the mean is theirs. */
  lemma {:induction false} ObservedIntendedStats(vs: seq<int>)
    requires |vs| > 0
    ensures ObservedIntended(vs) == Some(State(MinOf(vs), MaxOf(vs), |vs|, SumOf(vs)))
    ensures MeanOf(ObservedIntended(vs).value) == SumOf(vs) as real / |vs| as real
  {
    if |vs| > 1 {
      ObservedIntendedStats(vs[..|vs| - 1]);
    }
  }
}
