/**
 * Text splitting as done by Rust's `str::split(";")` (src/main.rs:33):
 * a string is cut at every occurrence of the delimiter, and there is always
 * at least one piece (the empty string yields the single piece "").
 */
module Text {

  /** The field delimiter of a measurement line. */
  const Delim: char := ';'

  /** Index of the first occurrence of `c` in `s`, or `|s|` when there is none. */
  function IndexOf(s: string, c: char): (i: nat)
    ensures i <= |s|
    ensures i < |s| ==> s[i] == c
    ensures forall k :: 0 <= k < i ==> s[k] != c
  {
    if s == [] then 0
    else if s[0] == c then 0
    else 1 + IndexOf(s[1..], c)
  }

  /** The pieces between delimiters, in order. */
  function Split(s: string): (parts: seq<string>)
    ensures |parts| >= 1
    ensures forall j :: 0 <= j < |parts| ==> Delim !in parts[j]
    decreases |s|
  {
    var i := IndexOf(s, Delim);
    if i == |s| then [s] else [s[..i]] + Split(s[i + 1..])
  }

  /** The pieces put back together with the delimiter between them. */
  function Join(parts: seq<string>): string
    requires |parts| >= 1
  {
    if |parts| == 1 then parts[0] else parts[0] + [Delim] + Join(parts[1..])
  }

  /** The first piece is the text before the first delimiter. */
  lemma SplitFirst(s: string)
    ensures Split(s)[0] == s[..IndexOf(s, Delim)]
  {
  }

  /**
   * There is a second piece exactly when the line holds a delimiter, and it is
   * the text between the first and the second delimiter (or the end of the line).
   */
  lemma SplitSecond(s: string)
    ensures |Split(s)| >= 2 <==> Delim in s
    ensures Delim in s ==>
      var i := IndexOf(s, Delim);
      var rest := s[i + 1..];
      Split(s)[1] == rest[..IndexOf(rest, Delim)]
  {
    var i := IndexOf(s, Delim);
    if i < |s| {
      var rest := s[i + 1..];
      assert Split(s) == [s[..i]] + Split(rest);
      SplitFirst(rest);
    }
  }

  /** Splitting and joining again gives back the original text. */
  lemma {:induction false} JoinSplit(s: string)
    ensures Join(Split(s)) == s
    decreases |s|
  {
    var i := IndexOf(s, Delim);
    if i < |s| {
      var rest := Split(s[i + 1..]);
      JoinSplit(s[i + 1..]);
      JoinCons(s[..i], rest);
      CutAt(s, i);
    }
  }

  /** Joining pieces free of delimiters and splitting again gives back the pieces. */
  lemma {:induction false} SplitJoin(parts: seq<string>)
    requires |parts| >= 1
    requires forall j :: 0 <= j < |parts| ==> Delim !in parts[j]
    ensures Split(Join(parts)) == parts
  {
    var s := Join(parts);
    if |parts| == 1 {
      IndexOfAbsent(parts[0], Delim);
    } else {
      var p := parts[0];
      var tail := Join(parts[1..]);
      assert s == p + [Delim] + tail;
      IndexOfAfter(p, tail, Delim);
      assert s[..|p|] == p;
      assert s[|p| + 1..] == tail;
      SplitJoin(parts[1..]);
    }
  }

  lemma JoinCons(p: string, rest: seq<string>)
    requires |rest| >= 1
    ensures Join([p] + rest) == p + [Delim] + Join(rest)
  {
    assert ([p] + rest)[1..] == rest;
  }

  lemma CutAt(s: string, i: nat)
    requires i < |s|
    ensures s == s[..i] + [s[i]] + s[i + 1..]
  {
  }

  lemma IndexOfAbsent(s: string, c: char)
    requires c !in s
    ensures IndexOf(s, c) == |s|
  {
  }

  lemma IndexOfAfter(p: string, tail: string, c: char)
    requires c !in p
    ensures IndexOf(p + [c] + tail, c) == |p|
  {
    var s := p + [c] + tail;
    assert s[|p|] == c;
    assert forall k :: 0 <= k < |p| ==> s[k] == p[k];
  }
}
