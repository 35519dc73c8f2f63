/** `application/x-www-form-urlencoded` and percent encoding (src/oauth/form.rs). */
module Form {
  import opened Prelude
  import opened Text
  import Utf8

  const PLUS: byte := 0x2B
  const PERCENT: byte := 0x25
  const SPACE: byte := 0x20

  function HexValue(b: byte): (r: Option<byte>)
    ensures r.Some? ==> r.value < 16
  {
    if 0x30 <= b <= 0x39 then Some(b - 0x30)
    else if 0x61 <= b <= 0x66 then Some(b - 0x61 + 10)
    else if 0x41 <= b <= 0x46 then Some(b - 0x41 + 10)
    else None
  }

  predicate IsEscape(b: bytes)
  {
    |b| >= 3 && b[0] == PERCENT && HexValue(b[1]).Some? && HexValue(b[2]).Some?
  }

  /** The bytes a form-urlencoded text stands for; a malformed escape stays as written. */
  function UrlDecode(b: bytes): (r: bytes)
    decreases |b|
  {
    if b == [] then []
    else if b[0] == PLUS then [SPACE] + UrlDecode(b[1..])
    else if IsEscape(b) then [HexValue(b[1]).value * 16 + HexValue(b[2]).value] + UrlDecode(b[3..])
    else [b[0]] + UrlDecode(b[1..])
  }

  function FormUrlDecode(src: string): (r: string)
  {
    Utf8.FromUtf8Lossy(UrlDecode(Utf8.Encode(src)))
  }

  lemma UrlDecodeNext(b: bytes, i: nat)
    requires i < |b|
    ensures IsEscape(b[i..]) ==>
              UrlDecode(b[i..]) == [HexValue(b[i + 1]).value * 16 + HexValue(b[i + 2]).value] + UrlDecode(b[i + 3..])
    ensures !IsEscape(b[i..]) ==>
              UrlDecode(b[i..]) == [if b[i] == PLUS then SPACE else b[i]] + UrlDecode(b[i + 1..])
    ensures IsEscape(b[i..]) <==>
              b[i] == PERCENT && i + 2 < |b| && HexValue(b[i + 1]).Some? && HexValue(b[i + 2]).Some?
  {
    var rest := b[i..];
    assert rest[1..] == b[i + 1..];
    if IsEscape(rest) { assert rest[3..] == b[i + 3..]; }
  }

  /** The index-driven loop of `form_url_decode`. */
  method DecodeForm(src: string) returns (out: string)
    ensures out == FormUrlDecode(src)
  {
    var b := Utf8.Encode(src);
    var acc := UrlDecodeLoop(b);
    out := Utf8.FromUtf8Lossy(acc);
  }

  method DecodeOne(b: bytes, index: nat) returns (x: byte, step: nat)
    requires index < |b|
    ensures 1 <= step && index + step <= |b|
    ensures UrlDecode(b[index..]) == [x] + UrlDecode(b[index + step..])
  {
    UrlDecodeNext(b, index);
    if b[index] == PLUS {
      x, step := SPACE, 1;
    } else if b[index] == PERCENT && index + 2 < |b| {
      if HexValue(b[index + 1]).Some? && HexValue(b[index + 2]).Some? {
        x, step := HexValue(b[index + 1]).value * 16 + HexValue(b[index + 2]).value, 3;
      } else {
        x, step := PERCENT, 1;
      }
    } else {
      x, step := b[index], 1;
    }
  }

  method UrlDecodeLoop(b: bytes) returns (acc: bytes)
    ensures acc == UrlDecode(b)
  {
    acc := [];
    var index := 0;
    while index < |b|
      invariant 0 <= index <= |b|
      invariant UrlDecode(b) == acc + UrlDecode(b[index..])
    {
      var x, step := DecodeOne(b, index);
      Associates(acc, [x], UrlDecode(b[index + step..]));
      acc := acc + [x];
      index := index + step;
    }
  }

  predicate IsUnreserved(c: char)
  {
    'A' <= c <= 'Z' || 'a' <= c <= 'z' || '0' <= c <= '9' || c in "-_.~"
  }

  function HexDigit(n: int): (r: char)
    requires 0 <= n < 16
    ensures r as int < 0x80 && HexValue(r as int as byte) == Some(n as byte)
    ensures IsUnreserved(r)
  {
    if n < 10 then (0x30 + n) as char else (0x41 + n - 10) as char
  }

  function PercentByte(b: byte): (r: string)
  {
    var c := b as int as char;
    if IsUnreserved(c) then [c] else ['%', HexDigit(b as int / 16), HexDigit(b as int % 16)]
  }

  function PercentBytes(b: bytes): (r: string)
  {
    if b == [] then [] else PercentByte(b[0]) + PercentBytes(b[1..])
  }

  function PercentEncode(src: string): (r: string) { PercentBytes(Utf8.Encode(src)) }

  method EncodePercent(src: string) returns (out: string)
    ensures out == PercentEncode(src)
  {
    var b := Utf8.Encode(src);
    out := [];
    for i := 0 to |b|
      invariant out + PercentBytes(b[i..]) == PercentBytes(b)
    {
      assert b[i..][1..] == b[i + 1..];
      out := out + PercentByte(b[i]);
    }
  }

  lemma AsciiByte(c: char, rest: string)
    requires c as int < 0x80
    ensures Utf8.Encode([c] + rest) == [c as int as byte] + Utf8.Encode(rest)
  {
    assert ([c] + rest)[1..] == rest;
  }

  lemma DecodePercentByte(b: byte, rest: string)
    ensures UrlDecode(Utf8.Encode(PercentByte(b) + rest)) == [b] + UrlDecode(Utf8.Encode(rest))
  {
    var c := b as int as char;
    if IsUnreserved(c) {
      AsciiByte(c, rest);
      assert c as int != 0x25 && c as int != 0x2B;
    } else {
      var h, l := HexDigit(b as int / 16), HexDigit(b as int % 16);
      assert PercentByte(b) + rest == ['%'] + ([h] + ([l] + rest));
      AsciiByte('%', [h] + ([l] + rest));
      AsciiByte(h, [l] + rest);
      AsciiByte(l, rest);
      var e := Utf8.Encode(PercentByte(b) + rest);
      assert e[0] == PERCENT && e[1] == h as int as byte && e[2] == l as int as byte;
      assert e[3..] == Utf8.Encode(rest);
    }
  }

  lemma {:induction false} DecodePercentBytes(b: bytes)
    ensures UrlDecode(Utf8.Encode(PercentBytes(b))) == b
  {
    if b != [] {
      DecodePercentByte(b[0], PercentBytes(b[1..]));
      DecodePercentBytes(b[1..]);
    }
  }

  /** `form_url_decode` undoes `percent_encode` on every string. */
  lemma DecodeUndoesPercentEncode(s: string)
    ensures FormUrlDecode(PercentEncode(s)) == s
  {
    DecodePercentBytes(Utf8.Encode(s));
    Utf8.DecodeUndoesEncode(s);
  }

  lemma {:induction false} PercentBytesAlphabet(b: bytes)
    ensures forall c :: c in PercentBytes(b) ==> IsUnreserved(c) || c == '%'
  {
    if b != [] { PercentBytesAlphabet(b[1..]); }
  }

  /** `e` can stand for `s` in a query or a form body. */
  ghost predicate Encodes(e: string, s: string)
  {
    '&' !in e && '=' !in e && FormUrlDecode(e) == s
  }

  lemma PercentEncodes(s: string)
    ensures Encodes(PercentEncode(s), s)
  {
    PercentBytesAlphabet(Utf8.Encode(s));
    DecodeUndoesPercentEncode(s);
  }

  function PairName(pair: string): (r: string)
  {
    match SplitOnce(pair, '=') case Some(p) => p.0 case None => pair
  }

  function PairValue(pair: string): (r: string)
  {
    match SplitOnce(pair, '=') case Some(p) => p.1 case None => []
  }

  /** The parameters in a list of pairs; the first occurrence of a name wins. */
  function ParsePairs(pairs: seq<string>): (r: map<string, string>)
  {
    if pairs == [] then map[]
    else if pairs[0] == [] then ParsePairs(pairs[1..])
    else ParsePairs(pairs[1..])[FormUrlDecode(PairName(pairs[0])) := FormUrlDecode(PairValue(pairs[0]))]
  }

  function ParseForm(src: string): (r: map<string, string>) { ParsePairs(Split(src, '&')) }

  lemma ParsePairsNext(pairs: seq<string>, i: nat, seen: map<string, string>)
    requires i < |pairs| && pairs[i] != []
    ensures var name, value := FormUrlDecode(PairName(pairs[i])), FormUrlDecode(PairValue(pairs[i]));
            ParsePairs(pairs[i..]) + seen
            == ParsePairs(pairs[i + 1..]) + (if name in seen then seen else seen[name := value])
  {
    assert pairs[i..][1..] == pairs[i + 1..];
  }

  /** The loop of `parse_form_urlencoded`, inserting only names that are absent. */
  method ReadForm(src: string) returns (result: map<string, string>)
    ensures result == ParseForm(src)
  {
    var pairs := Split(src, '&');
    result := map[];
    for i := 0 to |pairs|
      invariant ParsePairs(pairs) == ParsePairs(pairs[i..]) + result
    {
      if pairs[i] == [] {
        assert pairs[i..][1..] == pairs[i + 1..];
      } else {
        ParsePairsNext(pairs, i, result);
        var name := DecodeForm(PairName(pairs[i]));
        var value := DecodeForm(PairValue(pairs[i]));
        if name !in result { result := result[name := value]; }
      }
    }
  }

  lemma {:induction false} ParsePairsAppend(a: seq<string>, b: seq<string>)
    ensures ParsePairs(a + b) == ParsePairs(b) + ParsePairs(a)
  {
    if a == [] {
      assert a + b == b;
    } else {
      assert (a + b)[1..] == a[1..] + b;
      ParsePairsAppend(a[1..], b);
    }
  }

  /** Parameters of a query that is itself two queries joined by `&`. */
  lemma ParseFormJoined(a: string, b: string)
    ensures ParseForm(a + "&" + b) == ParseForm(b) + ParseForm(a)
  {
    SplitSeparated(a, '&', b);
    ParsePairsAppend(Split(a, '&'), Split(b, '&'));
  }

  lemma ParseOnePair(en: string, n: string, ev: string, v: string)
    requires Encodes(en, n) && Encodes(ev, v)
    ensures ParseForm(en + "=" + ev) == map[n := v]
  {
    var pair := en + "=" + ev;
    SplitWhole(pair, '&');
    SplitOnceAt(en, '=', ev);
    assert ParsePairs([pair][1..]) == map[];
  }

  datatype Field = Field(name: string, value: string)

  /** The parameters a list of fields stands for, the first of a name winning. */
  function FieldMap(fields: seq<Field>): (r: map<string, string>)
  {
    if fields == [] then map[] else FieldMap(fields[1..])[fields[0].name := fields[0].value]
  }

  lemma {:induction false} FieldMapDistinct(fields: seq<Field>, i: nat)
    requires i < |fields|
    requires forall j :: 0 <= j < i ==> fields[j].name != fields[i].name
    ensures fields[i].name in FieldMap(fields) && FieldMap(fields)[fields[i].name] == fields[i].value
  {
    if i > 0 { FieldMapDistinct(fields[1..], i - 1); }
  }

  lemma {:induction false} FieldMapNames(fields: seq<Field>, n: string)
    requires forall j :: 0 <= j < |fields| ==> fields[j].name != n
    ensures n !in FieldMap(fields)
  {
    if fields != [] { FieldMapNames(fields[1..], n); }
  }

  /** A query or form body: encoded pairs joined by `&`. */
  function JoinPairs(es: seq<Field>): (r: string)
  {
    if es == [] then []
    else if |es| == 1 then es[0].name + "=" + es[0].value
    else es[0].name + "=" + es[0].value + "&" + JoinPairs(es[1..])
  }

  ghost predicate EncodesFields(es: seq<Field>, fields: seq<Field>)
  {
    |es| == |fields| && forall i :: 0 <= i < |es| ==> Encodes(es[i].name, fields[i].name) && Encodes(es[i].value, fields[i].value)
  }

  lemma EncodesRest(es: seq<Field>, fields: seq<Field>)
    requires EncodesFields(es, fields) && es != []
    ensures Encodes(es[0].name, fields[0].name) && Encodes(es[0].value, fields[0].value) && EncodesFields(es[1..], fields[1..])
  {
  }

  lemma {:induction false} JoinedNext(e: Field, f: Field, more: string, rest: map<string, string>)
    requires Encodes(e.name, f.name) && Encodes(e.value, f.value) && ParseForm(more) == rest
    ensures ParseForm(e.name + "=" + e.value + "&" + more) == rest + map[f.name := f.value]
  {
    ParseOnePair(e.name, f.name, e.value, f.value);
    ParseFormJoined(e.name + "=" + e.value, more);
  }

  /** Parsing a joined list of encoded pairs recovers the parameters, whatever encoder
      the sender used. */
  lemma {:induction false} ParseUndoesJoin(es: seq<Field>, fields: seq<Field>)
    requires EncodesFields(es, fields)
    ensures ParseForm(JoinPairs(es)) == FieldMap(fields)
  {
    if es == [] {
      ParseNothing();
    } else {
      EncodesRest(es, fields);
      if |es| == 1 {
        ParseOnePair(es[0].name, fields[0].name, es[0].value, fields[0].value);
        assert FieldMap(fields[1..]) == map[];
      } else {
        ParseUndoesJoin(es[1..], fields[1..]);
        JoinedNext(es[0], fields[0], JoinPairs(es[1..]), FieldMap(fields[1..]));
      }
    }
  }

  lemma ParseNothing()
    ensures ParseForm("") == map[]
  {
    SplitWhole("", '&');
    assert ParsePairs([""]) == ParsePairs([""][1..]);
  }

  function HtmlEscapeChar(c: char): (r: string)
  {
    if c == '&' then "&amp;"
    else if c == '<' then "&lt;"
    else if c == '>' then "&gt;"
    else if c == '"' then "&quot;"
    else if c == '\'' then "&#x27;"
    else [c]
  }

  function HtmlEscape(s: string): (r: string)
  {
    if s == [] then [] else HtmlEscapeChar(s[0]) + HtmlEscape(s[1..])
  }

  /** Reading an attribute value back: the five character references the proxy writes. */
  function HtmlUnescape(s: string): (r: string)
    decreases |s|
  {
    if s == [] then []
    else if "&amp;" <= s then ['&'] + HtmlUnescape(s[5..])
    else if "&lt;" <= s then ['<'] + HtmlUnescape(s[4..])
    else if "&gt;" <= s then ['>'] + HtmlUnescape(s[4..])
    else if "&quot;" <= s then ['"'] + HtmlUnescape(s[6..])
    else if "&#x27;" <= s then ['\''] + HtmlUnescape(s[6..])
    else [s[0]] + HtmlUnescape(s[1..])
  }

  lemma UnescapePlain(c: char, rest: string)
    requires HtmlEscapeChar(c) == [c]
    ensures HtmlUnescape([c] + rest) == [c] + HtmlUnescape(rest)
  {
    assert ([c] + rest)[1..] == rest && ([c] + rest)[0] == c;
  }

  lemma NotPrefix(p: string, s: string, k: nat)
    requires k < |p| && k < |s| && p[k] != s[k]
    ensures !(p <= s)
  {
  }

  /** The second character of an escape tells it from the others. */
  lemma {:induction false} EscapeByMark(s: string)
    requires |s| >= 2
    ensures s[1] != 'a' ==> !("&amp;" <= s)
    ensures s[1] != 'l' ==> !("&lt;" <= s)
    ensures s[1] != 'g' ==> !("&gt;" <= s)
    ensures s[1] != 'q' ==> !("&quot;" <= s)
  {
    if s[1] != 'a' { NotPrefix("&amp;", s, 1); }
    if s[1] != 'l' { NotPrefix("&lt;", s, 1); }
    if s[1] != 'g' { NotPrefix("&gt;", s, 1); }
    if s[1] != 'q' { NotPrefix("&quot;", s, 1); }
  }

  lemma {:induction false} UnescapeFirst(c: char, rest: string)
    ensures HtmlUnescape(HtmlEscapeChar(c) + rest) == [c] + HtmlUnescape(rest)
  {
    var e := HtmlEscapeChar(c);
    if e == [c] {
      UnescapePlain(c, rest);
    } else {
      var s := e + rest;
      assert s[|e|..] == rest && e <= s && s[1] == e[1];
      EscapeByMark(s);
    }
  }

  /** `html_escape` loses nothing. */
  lemma {:induction false} UnescapeUndoesEscape(s: string)
    ensures HtmlUnescape(HtmlEscape(s)) == s
  {
    if s != [] {
      UnescapeFirst(s[0], HtmlEscape(s[1..]));
      UnescapeUndoesEscape(s[1..]);
    }
  }

  /** No markup or quote character survives `html_escape`. */
  lemma {:induction false} EscapedIsInert(s: string)
    ensures forall c :: c in HtmlEscape(s) ==> c !in "<>\"'"
  {
    if s != [] {
      EscapedIsInert(s[1..]);
      assert forall c :: c in HtmlEscapeChar(s[0]) ==> c !in "<>\"'";
    }
  }
}
