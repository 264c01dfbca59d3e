/**
 * The two functions of Go's `strings` package the core relies on:
 * `strings.Index` (first occurrence of a substring, or -1) and
 * `strings.Split` (around a one-element separator), with `Join` as the
 * inverse of `Split`.
 */
module GoStrings {

  /** `sub` occurs in `s` starting at index `j`. */
  predicate OccursAt<T(==)>(s: seq<T>, sub: seq<T>, j: nat)
  {
    j + |sub| <= |s| && s[j..j + |sub|] == sub
  }

  /** The first occurrence of `sub` in `s` at or after `from`, or -1. */
  function IndexFrom<T(==)>(s: seq<T>, sub: seq<T>, from: nat): (r: int)
    requires from <= |s|
    ensures r == -1 || (from <= r && OccursAt(s, sub, r))
    ensures r == -1 ==> forall k :: from <= k <= |s| ==> !OccursAt(s, sub, k)
    ensures r != -1 ==> forall k :: from <= k < r ==> !OccursAt(s, sub, k)
    decreases |s| - from
  {
    if from + |sub| > |s| then -1
    else if s[from..from + |sub|] == sub then from
    else IndexFrom(s, sub, from + 1)
  }

  /**
   * strings.Index: the index of the first occurrence of `sub` in `s`, or -1
   * when there is none.
   */
  function IndexOf<T(==)>(s: seq<T>, sub: seq<T>): (r: int)
    ensures r >= -1
    ensures r == -1 <==> forall k :: 0 <= k <= |s| ==> !OccursAt(s, sub, k)
    ensures r != -1 ==> OccursAt(s, sub, r) && forall k :: 0 <= k < r ==> !OccursAt(s, sub, k)
  {
    IndexFrom(s, sub, 0)
  }

  /** A one-element needle occurs exactly where that element sits. */
  lemma OccursAtSingle<T>(s: seq<T>, x: T, j: nat)
    ensures OccursAt(s, [x], j) <==> j < |s| && s[j] == x
  {
    if j < |s| && s[j] == x {
      assert s[j..j + 1] == [x];
    }
  }

  /** strings.Index with a one-element needle finds the first index holding it. */
  lemma IndexOfSingle<T>(s: seq<T>, x: T)
    ensures IndexOf(s, [x]) == -1 <==> x !in s
    ensures IndexOf(s, [x]) != -1 ==>
      && 0 <= IndexOf(s, [x]) < |s|
      && s[IndexOf(s, [x])] == x
      && x !in s[..IndexOf(s, [x])]
  {
    var r := IndexOf(s, [x]);
    if r == -1 {
      forall j | 0 <= j < |s| ensures s[j] != x {
        OccursAtSingle(s, x, j);
      }
    } else {
      OccursAtSingle(s, x, r);
      forall j | 0 <= j < r ensures s[j] != x {
        OccursAtSingle(s, x, j);
      }
    }
  }

  /**
   * strings.Split around the separator `sep`: the pieces between the
   * separators, always at least one (an empty input gives one empty piece).
   */
  function Split<T(==)>(s: seq<T>, sep: T): (parts: seq<seq<T>>)
    ensures |parts| >= 1
    ensures forall i :: 0 <= i < |parts| ==> sep !in parts[i]
    ensures |parts| == 1 <==> sep !in s
  {
    if |s| == 0 then [[]]
    else
      var rest := Split(s[1..], sep);
      if s[0] == sep then [[]] + rest
      else [[s[0]] + rest[0]] + rest[1..]
  }

  /** The pieces glued back together with `sep` between neighbours. */
  function Join<T>(parts: seq<seq<T>>, sep: T): seq<T>
    requires |parts| >= 1
  {
    if |parts| == 1 then parts[0] else parts[0] + [sep] + Join(parts[1..], sep)
  }

  /** The length of a join: two pieces and one separator, or more when there are more pieces. */
  lemma JoinLength<T>(parts: seq<seq<T>>, sep: T)
    requires |parts| >= 2
    ensures |parts| == 2 ==> |Join(parts, sep)| == |parts[0]| + 1 + |parts[1]|
    ensures |parts| >= 3 ==> |Join(parts, sep)| >= |parts[0]| + 1 + |parts[1]| + 1
  {
  }

  /** Joining the pieces of a split gives the input back. */
  lemma {:induction false} JoinSplit<T>(s: seq<T>, sep: T)
    ensures Join(Split(s, sep), sep) == s
  {
    if |s| > 0 {
      var rest := Split(s[1..], sep);
      JoinSplit(s[1..], sep);
      if s[0] != sep {
        if |rest| == 1 {
          assert Split(s, sep) == [[s[0]] + rest[0]];
        } else {
          assert Split(s, sep)[1..] == rest[1..];
          assert Join(rest, sep) == rest[0] + [sep] + Join(rest[1..], sep);
        }
      }
    }
  }

  /** Splitting a join of separator-free pieces gives the pieces back. */
  lemma {:induction false} SplitJoin<T>(parts: seq<seq<T>>, sep: T)
    requires |parts| >= 1
    requires forall i :: 0 <= i < |parts| ==> sep !in parts[i]
    ensures Split(Join(parts, sep), sep) == parts
  {
    if |parts| == 1 {
      SplitFree(parts[0], sep);
    } else {
      var tail := Join(parts[1..], sep);
      SplitJoin(parts[1..], sep);
      SplitPrefix(parts[0], sep, tail);
      assert [parts[0]] + parts[1..] == parts;
    }
  }

  /** A separator-free sequence splits into itself alone. */
  lemma {:induction false} SplitFree<T>(s: seq<T>, sep: T)
    requires sep !in s
    ensures Split(s, sep) == [s]
  {
    if |s| > 0 {
      SplitFree(s[1..], sep);
      assert [s[0]] + s[1..] == s;
    }
  }

  /** A separator-free prefix followed by the separator becomes the first piece. */
  lemma {:induction false} SplitPrefix<T>(p: seq<T>, sep: T, tail: seq<T>)
    requires sep !in p
    ensures Split(p + [sep] + tail, sep) == [p] + Split(tail, sep)
  {
    if |p| == 0 {
      assert p + [sep] + tail == [sep] + tail;
      assert ([sep] + tail)[1..] == tail;
    } else {
      SplitPrefix(p[1..], sep, tail);
      assert (p + [sep] + tail)[1..] == p[1..] + [sep] + tail;
      assert [p[0]] + p[1..] == p;
    }
  }
}
