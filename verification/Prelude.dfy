/** Values and sequence functions shared by every module. */
module Prelude {

  newtype byte = x: int | 0 <= x < 256

  type bytes = seq<byte>

  datatype Option<+T> = None | Some(value: T)

  function Min(a: int, b: int): (r: int)
  {
    if a <= b then a else b
  }

  /** Position of the first `c` at or after `from`, or `|s|` when there is none. */
  function FirstIndex<T(==)>(s: seq<T>, c: T, from: nat): (r: nat)
    requires from <= |s|
    ensures from <= r <= |s|
    ensures r < |s| ==> s[r] == c
    ensures forall i :: from <= i < r ==> s[i] != c
    decreases |s| - from
  {
    if from == |s| || s[from] == c then from else FirstIndex(s, c, from + 1)
  }

  lemma FirstIndexUnique<T>(s: seq<T>, c: T, from: nat, r: nat)
    requires from <= r < |s| && s[r] == c
    requires forall i :: from <= i < r ==> s[i] != c
    ensures FirstIndex(s, c, from) == r
  {
    assert c in s[from..] by { assert s[from..][r - from] == c; }
  }

  lemma FirstIndexAbsent<T>(s: seq<T>, c: T, from: nat)
    requires from <= |s| && forall i :: from <= i < |s| ==> s[i] != c
    ensures FirstIndex(s, c, from) == |s|
  {
  }

  lemma Associates<T>(a: seq<T>, b: seq<T>, c: seq<T>)
    ensures a + (b + c) == a + b + c
  {
  }

  lemma FrontAndLast<T>(s: seq<T>)
    requires s != []
    ensures s == s[..|s| - 1] + [s[|s| - 1]]
  {
  }

  /** The pieces of `s` between the separators `c`; `[s]` when there are none. */
  function Split<T(==)>(s: seq<T>, c: T): (r: seq<seq<T>>)
    ensures |r| >= 1
    decreases |s|
  {
    var i := FirstIndex(s, c, 0);
    if i == |s| then [s] else [s[..i]] + Split(s[i + 1..], c)
  }

  lemma SplitAt<T>(s: seq<T>, c: T, i: nat)
    requires i < |s| && s[i] == c && c !in s[..i]
    ensures Split(s, c) == [s[..i]] + Split(s[i + 1..], c)
  {
    forall k | 0 <= k < i ensures s[k] != c { assert s[..i][k] != c; }
    FirstIndexUnique(s, c, 0, i);
  }

  lemma {:induction false} SplitCons<T>(first: seq<T>, c: T, rest: seq<T>)
    requires c !in first
    ensures Split(first + [c] + rest, c) == [first] + Split(rest, c)
  {
    var s := first + [c] + rest;
    assert s[..|first|] == first && s[|first| + 1..] == rest;
    SplitAt(s, c, |first|);
  }

  lemma SplitOne<T>(s: seq<T>, c: T)
    requires FirstIndex(s, c, 0) == |s|
    ensures c !in s && Split(s, c) == [s]
  {
  }

  lemma {:induction false} SplitSeparated<T>(a: seq<T>, c: T, b: seq<T>)
    ensures Split(a + [c] + b, c) == Split(a, c) + Split(b, c)
    decreases |a|
  {
    var i := FirstIndex(a, c, 0);
    if i == |a| {
      SplitOne(a, c);
      SplitCons(a, c, b);
    } else {
      var first, rest := a[..i], a[i + 1..];
      assert a == first + [c] + rest;
      assert a + [c] + b == first + [c] + (rest + [c] + b);
      SplitCons(first, c, rest);
      SplitCons(first, c, rest + [c] + b);
      SplitSeparated(rest, c, b);
      Associates([first], Split(rest, c), Split(b, c));
    }
  }

  lemma SplitWhole<T>(s: seq<T>, c: T)
    requires c !in s
    ensures Split(s, c) == [s]
  {
    FirstIndexAbsent(s, c, 0);
  }

  function Concat<T>(parts: seq<seq<T>>): (r: seq<T>)
  {
    if parts == [] then [] else parts[0] + Concat(parts[1..])
  }

  lemma {:induction false} ConcatAppend<T>(a: seq<seq<T>>, b: seq<seq<T>>)
    ensures Concat(a + b) == Concat(a) + Concat(b)
  {
    if a == [] {
      assert a + b == b;
    } else {
      ConcatAppend(a[1..], b);
      assert (a + b)[1..] == a[1..] + b;
      Associates(a[0], Concat(a[1..]), Concat(b));
    }
  }
}
