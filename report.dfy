/**
 * The report (src/main.rs:12-16, 52-61): `{`, then `name=min/max/mean,` for
 * every station in ascending order of names, then `}`. The numbers are
 * printed by a text conversion that is a parameter of the model.
 */
module Report {
  import opened Stats
  import opened Order
  import opened Aggregation

  /** A value in tenths as the number it stands for. */
  function Tenths(v: int): real {
    v as real / 10.0
  }

  /** Every entry can be printed: its count is not zero. */
  predicate Printable(t: Table) {
    forall k :: k in t ==> t[k].count > 0
  }

  /** `Display for State` (src/main.rs:12-16): `min/max/mean`, mean being sum / count. */
  function ShowState(s: State, show: real -> string): string
    requires s.count > 0
  {
    show(Tenths(s.min)) + "/" + show(Tenths(s.max)) + "/" + show(MeanOf(s) / 10.0)
  }

  /** One `print!("{station}={state},")` (src/main.rs:59). */
  function Entry(key: string, s: State, show: real -> string): string
    requires s.count > 0
  {
    key + "=" + ShowState(s, show) + ","
  }

  /** The entries of the given stations, in the given order. */
  function Entries(t: Table, keys: seq<string>, show: real -> string): string
    requires Printable(t)
    requires forall i :: 0 <= i < |keys| ==> keys[i] in t
  {
    if keys == [] then ""
    else Entries(t, keys[..|keys| - 1], show) + Entry(keys[|keys| - 1], t[keys[|keys| - 1]], show)
  }

  predicate Sorted(s: seq<string>) {
    forall i, j :: 0 <= i < j < |s| ==> LessEq(s[i], s[j])
  }

  predicate StrictlyIncreasing(s: seq<string>) {
    forall i, j :: 0 <= i < j < |s| ==> Less(s[i], s[j])
  }

  /** A finite set of names has a least one. */
  lemma {:induction false} LeastExists(s: set<string>)
    requires s != {}
    ensures exists m :: m in s && forall x :: x in s ==> LessEq(m, x)
    decreases |s|
  {
    var y :| y in s;
    if s - {y} != {} {
      LeastExists(s - {y});
      var m :| m in s - {y} && forall x :: x in s - {y} ==> LessEq(m, x);
      if Less(y, m) {
        forall x | x in s ensures LessEq(y, x) {
          if x != y {
            LessEqTransitive(y, m, x);
          }
        }
        assert y in s && forall x :: x in s ==> LessEq(y, x);
      } else {
        NotLess(m, y);
        assert m in s && forall x :: x in s ==> LessEq(m, x);
      }
    } else {
      assert s == {y};
      assert y in s && forall x :: x in s ==> LessEq(y, x);
    }
  }

  /** The least name of a non-empty set. */
  ghost function Least(s: set<string>): (m: string)
    requires s != {}
    ensures m in s
    ensures forall x :: x in s ==> LessEq(m, x)
  {
    LeastExists(s);
    var m :| m in s && forall x :: x in s ==> LessEq(m, x);
    m
  }

  lemma MultisetRemove(s: set<string>, m: string)
    requires m in s
    ensures multiset(s) == multiset(s - {m}) + multiset{m}
  {
    assert s == (s - {m}) + {m};
  }

  /** The names of a set in ascending order: the order of the report. */
  ghost function SortedKeys(s: set<string>): (ks: seq<string>)
    ensures StrictlyIncreasing(ks)
    ensures forall k :: k in ks <==> k in s
    ensures multiset(ks) == multiset(s)
    decreases |s|
  {
    if s == {} then []
    else
      var m := Least(s);
      var rest := SortedKeys(s - {m});
      MultisetRemove(s, m);
      assert forall j :: 0 <= j < |rest| ==> Less(m, rest[j]) by {
        forall j | 0 <= j < |rest| ensures Less(m, rest[j]) {
          assert rest[j] in s - {m};
        }
      }
      LeadStrictlyIncreasing(m, rest);
      [m] + rest
  }

  lemma LeadStrictlyIncreasing(m: string, rest: seq<string>)
    requires StrictlyIncreasing(rest)
    requires forall j :: 0 <= j < |rest| ==> Less(m, rest[j])
    ensures StrictlyIncreasing([m] + rest)
  {
    var ks := [m] + rest;
    forall i, j | 0 <= i < j < |ks| ensures Less(ks[i], ks[j]) {
      if i == 0 {
        assert ks[j] == rest[j - 1];
      } else {
        assert ks[i] == rest[i - 1] && ks[j] == rest[j - 1];
      }
    }
  }

  /** The whole report of a table. */
  ghost function ReportOf(t: Table, show: real -> string): string
    requires Printable(t)
  {
    "{" + Entries(t, SortedKeys(t.Keys), show) + "}"
  }

  /** Two sorted sequences with the same elements are the same sequence. */
  lemma {:induction false} SortedUnique(xs: seq<string>, ys: seq<string>)
    requires Sorted(xs) && Sorted(ys)
    requires multiset(xs) == multiset(ys)
    ensures xs == ys
  {
    if xs == [] {
      assert |multiset(ys)| == 0;
    } else {
      assert ys != [] by { assert xs[0] in multiset(ys); }
      SortedHeads(xs, ys);
      SortedHeads(ys, xs);
      LessEqAntisymmetric(xs[0], ys[0]);
      TailMultiset(xs);
      TailMultiset(ys);
      SortedUnique(xs[1..], ys[1..]);
      assert xs == [xs[0]] + xs[1..];
      assert ys == [ys[0]] + ys[1..];
    }
  }

  /** The head of a sorted sequence is at most every element of one with the same elements. */
  lemma SortedHeads(xs: seq<string>, ys: seq<string>)
    requires Sorted(ys) && xs != [] && ys != []
    requires multiset(xs) == multiset(ys)
    ensures LessEq(ys[0], xs[0])
  {
    assert xs[0] in multiset(ys);
    var i :| 0 <= i < |ys| && ys[i] == xs[0];
    if i > 0 {}
  }

  lemma TailMultiset(xs: seq<string>)
    requires xs != []
    ensures multiset(xs[1..]) == multiset(xs) - multiset{xs[0]}
  {
    assert xs == [xs[0]] + xs[1..];
  }

  /** Any ascending enumeration of a set of names is the one the report uses. */
  lemma {:induction false} SortedKeysCharacterized(ks: seq<string>, s: set<string>)
    requires StrictlyIncreasing(ks)
    requires forall k :: k in ks <==> k in s
    ensures ks == SortedKeys(s)
    decreases |ks|
  {
    if ks == [] {
      assert s == {};
    } else {
      assert ks[0] in s;
      var m := Least(s);
      assert LessEq(ks[0], m) by {
        var i :| 0 <= i < |ks| && ks[i] == m;
        if i > 0 {}
      }
      LessEqAntisymmetric(ks[0], m);
      forall k ensures k in ks[1..] <==> k in s - {m} {
        if k in ks[1..] {
          var j :| 1 <= j < |ks| && ks[j] == k;
          LessIrreflexive(k);
          assert Less(ks[0], ks[j]);
        }
        if k in s - {m} {
          var j :| 0 <= j < |ks| && ks[j] == k;
          assert j != 0;
          assert ks[1..][j - 1] == k;
        }
      }
      SortedKeysCharacterized(ks[1..], s - {m});
      assert ks == [ks[0]] + ks[1..];
    }
  }

  /** An empty table prints as `{}`. */
  lemma ReportEmpty(show: real -> string)
    ensures ReportOf(map[], show) == "{}"
  {
    SortedKeysCharacterized([], {});
  }

  /** A table with one station prints that station's single entry. */
  lemma ReportSingle(key: string, s: State, show: real -> string)
    requires s.count > 0
    ensures ReportOf(map[key := s], show) == "{" + key + "=" + ShowState(s, show) + ",}"
  {
    var t := map[key := s];
    assert t.Keys == {key};
    SortedKeysCharacterized([key], {key});
    assert [key][..0] == [];
    assert Entries(t, [key], show) == Entry(key, s, show);
  }

  /** `station_iter_sorted.sort()` (src/main.rs:55): sorts the names in place. */
  method SortKeys(a: array<string>)
    modifies a
    ensures Sorted(a[..])
    ensures multiset(a[..]) == multiset(old(a[..]))
  {
    var i := 0;
    while i < a.Length
      invariant 0 <= i <= a.Length
      invariant Sorted(a[..i])
      invariant multiset(a[..]) == multiset(old(a[..]))
    {
      var j := i;
      while j > 0 && Less(a[j], a[j - 1])
        invariant 0 <= j <= i
        invariant forall p, q :: 0 <= p < q <= i && q != j ==> LessEq(a[p], a[q])
        invariant multiset(a[..]) == multiset(old(a[..]))
      {
        a[j - 1], a[j] := a[j], a[j - 1];
        j := j - 1;
      }
      if j > 0 {
        NotLess(a[j - 1], a[j]);
        forall p | 0 <= p < j - 1 ensures LessEq(a[p], a[j]) {
          LessEqTransitive(a[p], a[j - 1], a[j]);
        }
      }
      i := i + 1;
    }
    assert a[..i] == a[..];
  }

  /** `stations_stats.keys().collect()` (src/main.rs:54): the names, in no particular order. */
  method CollectKeys(t: Table) returns (keys: seq<string>)
    ensures multiset(keys) == multiset(t.Keys)
  {
    keys := [];
    var rest := t.Keys;
    while rest != {}
      invariant rest <= t.Keys
      invariant multiset(keys) + multiset(rest) == multiset(t.Keys)
      decreases |rest|
    {
      var k :| k in rest;
      MultisetRemove(rest, k);
      keys := keys + [k];
      rest := rest - {k};
    }
  }

  /** The printing loop (src/main.rs:57-60): one entry per name, in the order given. */
  method PrintEntries(t: Table, keys: seq<string>, show: real -> string) returns (out: string)
    requires Printable(t)
    requires forall i :: 0 <= i < |keys| ==> keys[i] in t
    ensures out == Entries(t, keys, show)
  {
    out := "";
    for i := 0 to |keys|
      invariant out == Entries(t, keys[..i], show)
    {
      assert keys[..i + 1][..i] == keys[..i];
      var station := keys[i];
      var state := t[station];
      out := out + Entry(station, state, show);
    }
    assert keys[..|keys|] == keys;
  }

  /** `main`'s output (src/main.rs:52-61): the entries in ascending order of names, in braces. */
  method Render(t: Table, show: real -> string) returns (out: string)
    requires Printable(t)
    ensures out == ReportOf(t, show)
  {
    var keys := CollectKeys(t);
    var a := new string[|keys|](i requires 0 <= i < |keys| => keys[i]);
    assert a[..] == keys;
    SortKeys(a);
    SortedUnique(a[..], SortedKeys(t.Keys));
    var entries := PrintEntries(t, a[..], show);
    out := "{" + entries + "}";
  }
}
