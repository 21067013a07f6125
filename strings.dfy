/**
 * Python's `str.split(sep)`, `sep.join(parts)` and `str.partition(sep)` for a
 * one-character separator, with the facts about them that the modules rely on.
 */
module Strings {

  /** `s.split(sep)`: always at least one field, "" splits into [""]. */
  function Split(s: string, sep: char): (r: seq<string>)
    ensures |r| >= 1
    ensures sep !in s ==> r == [s]
  {
    assert [] + s == s;
    SplitFrom(s, sep, [])
  }

  /** The fields of `cur + s`, where `cur` is the part of the current field
      already read. */
  function SplitFrom(s: string, sep: char, cur: string): (r: seq<string>)
    ensures |r| >= 1
    ensures sep !in s ==> r == [cur + s]
    decreases |s|
  {
    if s == [] then
      assert cur + s == cur;
      [cur]
    else if s[0] == sep then [cur] + SplitFrom(s[1..], sep, [])
    else
      assert cur + s == (cur + [s[0]]) + s[1..];
      SplitFrom(s[1..], sep, cur + [s[0]])
  }

  /** `sep.join(parts)`. */
  function Join(parts: seq<string>, sep: char): string
    decreases |parts|
  {
    if |parts| == 0 then []
    else if |parts| == 1 then parts[0]
    else parts[0] + [sep] + Join(parts[1..], sep)
  }

  /** Joining gives "" only for no parts or the single part "". */
  lemma JoinIsEmpty(parts: seq<string>, sep: char)
    ensures Join(parts, sep) == [] <==> parts == [] || parts == [[]]
  {
  }

  /** `s.partition(sep)` without the middle element: the text before the first
      separator and the text after it (everything and "" when there is none). */
  function Partition(s: string, sep: char): (r: (string, string))
    ensures sep !in r.0
    ensures sep !in s ==> r == (s, [])
    decreases |s|
  {
    if s == [] then ([], [])
    else if s[0] == sep then ([], s[1..])
    else
      var (a, b) := Partition(s[1..], sep);
      assert s == [s[0]] + s[1..];
      ([s[0]] + a, b)
  }

  /** No field of `parts` contains `sep`. */
  predicate FreeOf(parts: seq<string>, sep: char) {
    forall i :: 0 <= i < |parts| ==> sep !in parts[i]
  }

  lemma {:induction false} SplitFromCons(p: string, t: string, sep: char, cur: string)
    requires sep !in p
    ensures SplitFrom(p + [sep] + t, sep, cur) == [cur + p] + SplitFrom(t, sep, [])
    decreases |p|
  {
    if p == [] {
      assert [] + [sep] + t == [sep] + t;
      assert ([sep] + t)[1..] == t;
      assert cur + p == cur;
    } else {
      assert (p + [sep] + t)[1..] == p[1..] + [sep] + t;
      SplitFromCons(p[1..], t, sep, cur + [p[0]]);
      assert (cur + [p[0]]) + p[1..] == cur + p;
    }
  }

  /** Splitting a field followed by the separator peels that field off. */
  lemma SplitCons(p: string, t: string, sep: char)
    requires sep !in p
    ensures Split(p + [sep] + t, sep) == [p] + Split(t, sep)
  {
    SplitFromCons(p, t, sep, []);
    assert [] + p == p;
  }

  /** Splitting undoes joining when no field contains the separator. */
  lemma {:induction false} SplitJoin(parts: seq<string>, sep: char)
    requires |parts| >= 1
    requires FreeOf(parts, sep)
    ensures Split(Join(parts, sep), sep) == parts
    decreases |parts|
  {
    if |parts| == 1 {
      assert sep !in parts[0];
    } else {
      assert sep !in parts[0];
      assert FreeOf(parts[1..], sep) by {
        forall i | 0 <= i < |parts[1..]| ensures sep !in parts[1..][i] {
          assert parts[1..][i] == parts[i + 1];
        }
      }
      SplitJoin(parts[1..], sep);
      SplitCons(parts[0], Join(parts[1..], sep), sep);
      assert [parts[0]] + parts[1..] == parts;
    }
  }

  /** Joining a field in front of at least one more adds it and a separator. */
  lemma JoinCons(p: string, rest: seq<string>, sep: char)
    requires |rest| >= 1
    ensures Join([p] + rest, sep) == p + [sep] + Join(rest, sep)
  {
    assert ([p] + rest)[1..] == rest;
  }

  /** A string holding the separator is the text before it, the separator
      and the text after it. */
  lemma {:induction false} PartitionSplits(s: string, sep: char)
    requires sep in s
    ensures s == Partition(s, sep).0 + [sep] + Partition(s, sep).1
    decreases |s|
  {
    if s[0] != sep {
      assert sep in s[1..];
      PartitionSplits(s[1..], sep);
      var (a, b) := Partition(s[1..], sep);
      assert s == [s[0]] + (a + [sep] + b);
      assert [s[0]] + (a + [sep] + b) == ([s[0]] + a) + [sep] + b;
    }
  }

  /** Joining undoes splitting. */
  lemma {:induction false} JoinSplit(s: string, sep: char)
    ensures Join(Split(s, sep), sep) == s
    decreases |s|
  {
    if sep in s {
      var (p, t) := Partition(s, sep);
      PartitionSplits(s, sep);
      SplitCons(p, t, sep);
      JoinSplit(t, sep);
      JoinCons(p, Split(t, sep), sep);
    }
  }

  lemma {:induction false} SplitFromFirst(s: string, sep: char, cur: string)
    ensures SplitFrom(s, sep, cur)[0] == cur + Partition(s, sep).0
    decreases |s|
  {
    if s == [] {
      assert cur + [] == cur;
    } else if s[0] == sep {
      assert cur + [] == cur;
    } else {
      SplitFromFirst(s[1..], sep, cur + [s[0]]);
      assert (cur + [s[0]]) + Partition(s[1..], sep).0 == cur + ([s[0]] + Partition(s[1..], sep).0);
    }
  }

  /** The first field of a split is the text before the first separator. */
  lemma SplitFirstIsPartition(s: string, sep: char)
    ensures Split(s, sep)[0] == Partition(s, sep).0
  {
    SplitFromFirst(s, sep, []);
    assert [] + Partition(s, sep).0 == Partition(s, sep).0;
  }

  /** Partitioning a field followed by the separator gives the field and the rest. */
  lemma {:induction false} PartitionCons(p: string, t: string, sep: char)
    requires sep !in p
    ensures Partition(p + [sep] + t, sep) == (p, t)
    decreases |p|
  {
    if p == [] {
      assert [] + [sep] + t == [sep] + t;
      assert ([sep] + t)[1..] == t;
    } else {
      assert (p + [sep] + t)[1..] == p[1..] + [sep] + t;
      PartitionCons(p[1..], t, sep);
      assert [p[0]] + p[1..] == p;
    }
  }
}
