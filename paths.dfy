/** Splitting a name into its `/`-separated segments and joining them back. */
module Paths {

  const SEPARATOR: char := '/'

  predicate NoSeparator(s: string) {
    forall i :: 0 <= i < |s| ==> s[i] != SEPARATOR
  }

  /**
   * The segments of `s` between separators, as `String.prototype.split('/')`
   * gives them: one more segment than separators, none containing one.
   */
  function Split(s: string): (parts: seq<string>)
    ensures |parts| >= 1
    ensures forall i :: 0 <= i < |parts| ==> NoSeparator(parts[i])
    decreases |s|
  {
    if s == [] then [""]
    else if s[0] == SEPARATOR then [""] + Split(s[1..])
    else
      var rest := Split(s[1..]);
      [[s[0]] + rest[0]] + rest[1..]
  }

  /** The segments glued back with the separator, as `Array.prototype.join('/')`. */
  function Join(parts: seq<string>): string
    decreases |parts|
  {
    if parts == [] then ""
    else if |parts| == 1 then parts[0]
    else parts[0] + [SEPARATOR] + Join(parts[1..])
  }

  /** Joining a segment in front of at least one more puts a separator between them. */
  lemma JoinCons(head: string, rest: seq<string>)
    requires |rest| >= 1
    ensures Join([head] + rest) == head + [SEPARATOR] + Join(rest)
  {
    assert ([head] + rest)[1..] == rest;
  }

  /** The number of separators in `s`. */
  function Separators(s: string): nat
    decreases |s|
  {
    if s == [] then 0 else (if s[0] == SEPARATOR then 1 else 0) + Separators(s[1..])
  }

  /** There is one more segment than there are separators. */
  lemma {:induction false} SplitCount(s: string)
    ensures |Split(s)| == Separators(s) + 1
    decreases |s|
  {
    if s != [] {
      SplitCount(s[1..]);
    }
  }

  /** Joining the segments gives the name back. */
  lemma {:induction false} JoinSplit(s: string)
    ensures Join(Split(s)) == s
    decreases |s|
  {
    if s == [] {
    } else if s[0] == SEPARATOR {
      JoinSplit(s[1..]);
      var rest := Split(s[1..]);
      assert Split(s) == [""] + rest;
      assert ([""] + rest)[1..] == rest;
      assert s == "" + [SEPARATOR] + s[1..];
    } else {
      JoinSplit(s[1..]);
      var rest := Split(s[1..]);
      var parts := [[s[0]] + rest[0]] + rest[1..];
      assert parts[1..] == rest[1..];
      if |rest| == 1 {
        assert s == [s[0]] + rest[0];
      } else {
        assert rest == [rest[0]] + rest[1..];
        assert Join(rest) == rest[0] + [SEPARATOR] + Join(rest[1..]);
        assert s == [s[0]] + s[1..];
      }
    }
  }

  /** Splitting joined separator-free segments gives the segments back. */
  lemma {:induction false} SplitJoin(parts: seq<string>)
    requires |parts| >= 1
    requires forall i :: 0 <= i < |parts| ==> NoSeparator(parts[i])
    ensures Split(Join(parts)) == parts
    decreases |parts|, |parts[0]|
  {
    var head := parts[0];
    if |parts| == 1 {
      SplitSegment(head);
    } else {
      var tail := parts[1..];
      SplitJoin(tail);
      SplitPrefixed(head, Join(tail));
      assert [head] + tail == parts;
    }
  }

  /** A separator-free string is a single segment. */
  lemma {:induction false} SplitSegment(s: string)
    requires NoSeparator(s)
    ensures Split(s) == [s]
    decreases |s|
  {
    if s != [] {
      SplitSegment(s[1..]);
      assert [s[0]] + s[1..] == s;
    }
  }

  /** A separator-free segment followed by `/` and more starts the split. */
  lemma {:induction false} SplitPrefixed(head: string, rest: string)
    requires NoSeparator(head)
    ensures Split(head + [SEPARATOR] + rest) == [head] + Split(rest)
    decreases |head|
  {
    var s := head + [SEPARATOR] + rest;
    if head == [] {
      assert s == [SEPARATOR] + rest;
      assert s[1..] == rest;
    } else {
      assert s[1..] == head[1..] + [SEPARATOR] + rest;
      SplitPrefixed(head[1..], rest);
      assert [head[0]] + head[1..] == head;
    }
  }
}
