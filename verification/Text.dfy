/** The `str` operations of Rust that the proxy relies on, over Unicode scalar values. */
module Text {
  import opened Prelude

  /** ASCII lower case, the folding behind `eq_ignore_ascii_case`. */
  function Lower(c: char): (r: char)
  {
    if 'A' <= c <= 'Z' then (c as int + 32) as char else c
  }

  predicate EqIgnoreCase(a: string, b: string)
  {
    |a| == |b| && forall i :: 0 <= i < |a| ==> Lower(a[i]) == Lower(b[i])
  }

  /** The Unicode White_Space property. */
  predicate IsSpace(c: char)
  {
    || '\U{9}' <= c <= '\U{D}' || c == ' ' || c == '\U{85}' || c == '\U{A0}' || c == '\U{1680}'
    || '\U{2000}' <= c <= '\U{200A}' || c == '\U{2028}' || c == '\U{2029}' || c == '\U{202F}'
    || c == '\U{205F}' || c == '\U{3000}'
  }

  function TrimStart(s: string): (r: string)
  {
    if s != [] && IsSpace(s[0]) then TrimStart(s[1..]) else s
  }

  function TrimEnd(s: string): (r: string)
  {
    if s != [] && IsSpace(s[|s| - 1]) then TrimEnd(s[..|s| - 1]) else s
  }

  function Trim(s: string): (r: string) { TrimEnd(TrimStart(s)) }

  /** `trim_end_matches('/')` */
  function TrimSlashes(s: string): (r: string)
    ensures r <= s
    ensures r != [] ==> r[|r| - 1] != '/'
    ensures (s == [] || s[|s| - 1] != '/') ==> r == s
  {
    if s != [] && s[|s| - 1] == '/' then TrimSlashes(s[..|s| - 1]) else s
  }

  /** `split_once(c)` */
  function SplitOnce(s: string, c: char): (r: Option<(string, string)>)
  {
    var i := FirstIndex(s, c, 0);
    if i == |s| then None else Some((s[..i], s[i + 1..]))
  }

  /** `rsplit_once(c)` */
  function RSplitOnce(s: string, c: char): (r: Option<(string, string)>)
  {
    if s == [] then None
    else if s[|s| - 1] == c then Some((s[..|s| - 1], []))
    else match RSplitOnce(s[..|s| - 1], c)
      case None => None
      case Some(p) => Some((p.0, p.1 + [s[|s| - 1]]))
  }

  lemma SplitOnceAt(a: string, c: char, b: string)
    requires c !in a
    ensures SplitOnce(a + [c] + b, c) == Some((a, b))
  {
    var s := a + [c] + b;
    FirstIndexUnique(s, c, 0, |a|);
    assert s[..|a|] == a && s[|a| + 1..] == b;
  }

  lemma {:induction false} RSplitOnceAt(a: string, c: char, b: string)
    requires c !in b
    ensures RSplitOnce(a + [c] + b, c) == Some((a, b))
    decreases |b|
  {
    var s := a + [c] + b;
    if b == [] {
      assert s[..|s| - 1] == a;
    } else {
      var front := b[..|b| - 1];
      assert s[..|s| - 1] == a + [c] + front;
      RSplitOnceAt(a, c, front);
      assert front + [b[|b| - 1]] == b;
    }
  }

  lemma {:induction false} RSplitOnceAbsent(s: string, c: char)
    requires c !in s
    ensures RSplitOnce(s, c) == None
  {
    if s != [] { RSplitOnceAbsent(s[..|s| - 1], c); }
  }

  /** `split_whitespace()` */
  function Tokens(s: string): (r: seq<string>)
    decreases |s|
  {
    if s == [] then []
    else if IsSpace(s[0]) then Tokens(s[1..])
    else [s[..WordEnd(s, 0)]] + Tokens(s[WordEnd(s, 0)..])
  }

  function WordEnd(s: string, from: nat): (r: nat)
    requires from <= |s|
    ensures from <= r <= |s|
    ensures from < |s| && !IsSpace(s[from]) ==> from < r
    ensures forall i :: from <= i < r ==> !IsSpace(s[i])
    ensures r < |s| ==> IsSpace(s[r])
    decreases |s| - from
  {
    if from == |s| || IsSpace(s[from]) then from else WordEnd(s, from + 1)
  }

  lemma WordEndUnique(s: string, from: nat, r: nat)
    requires from <= r <= |s|
    requires forall i :: from <= i < r ==> !IsSpace(s[i])
    requires r == |s| || IsSpace(s[r])
    ensures WordEnd(s, from) == r
  {
  }

  predicate IsWord(s: string) { s != [] && forall i :: 0 <= i < |s| ==> !IsSpace(s[i]) }

  lemma TokensOfWord(s: string)
    requires IsWord(s)
    ensures Tokens(s) == [s]
  {
    WordEndUnique(s, 0, |s|);
    assert s[..|s|] == s && s[|s|..] == [];
  }

  lemma TokensHead(w: string, rest: string)
    requires IsWord(w) && (rest == [] || IsSpace(rest[0]))
    ensures Tokens(w + rest) == [w] + Tokens(rest)
  {
    var s := w + rest;
    WordEndUnique(s, 0, |w|);
    assert s[..|w|] == w && s[|w|..] == rest;
  }

  /** Tokens on both sides of a white-space character are found independently. */
  lemma {:induction false} TokensSeparated(a: string, sp: char, b: string)
    requires IsSpace(sp)
    ensures Tokens(a + [sp] + b) == Tokens(a) + Tokens(b)
    decreases |a|
  {
    var s := a + [sp] + b;
    if a == [] {
      assert s[1..] == b;
    } else if IsSpace(a[0]) {
      assert s[1..] == a[1..] + [sp] + b;
      TokensSeparated(a[1..], sp, b);
    } else {
      var n := WordEnd(a, 0);
      var w, rest := a[..n], a[n..];
      assert w + rest == a;
      assert s == w + (rest + [sp] + b);
      TokensHead(w, rest + [sp] + b);
      TokensHead(w, rest);
      TokensSeparated(rest, sp, b);
    }
  }

  predicate AllDigits(s: string) { forall i :: 0 <= i < |s| ==> '0' <= s[i] <= '9' }

  function DigitsValue(s: string): (r: nat)
    requires AllDigits(s)
  {
    if s == [] then 0 else DigitsValue(s[..|s| - 1]) * 10 + (s[|s| - 1] as int - 0x30)
  }

  /** `str::parse` for an unsigned integer type with the given largest value. */
  function ParseUnsigned(s: string, max: nat): (r: Option<nat>)
  {
    var digits := if s != [] && s[0] == '+' then s[1..] else s;
    if digits == [] || !AllDigits(digits) || DigitsValue(digits) > max then None else Some(DigitsValue(digits))
  }
}
