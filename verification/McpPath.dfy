/** Swapping the path of a request line for the one of an MCP server
    (`push_first_line_with_other_path` of src/h1_utils/http_headers.rs): lines are checked
    by splitting on white space but rewritten by splitting on single spaces. */
module McpPath {
  import opened Prelude
  import opened Text
  import opened HttpHead
  import opened HeadRewrite
  import Utf8

  /** The text form of the rewriting. */
  function SwapPath(s: string, path: string): (r: string)
  {
    if ' ' !in s then s else BeforeSpace(s) + [' '] + (path + FromFirst(AfterSpace(s), ' '))
  }

  /** The parts of a text around its first space. */
  function BeforeSpace(s: string): (r: string) { s[..FirstIndex(s, ' ', 0)] }

  function AfterSpace(s: string): (r: string)
  {
    var i := FirstIndex(s, ' ', 0);
    if i == |s| then [] else s[i + 1..]
  }

  lemma AroundSpace(s: string)
    ensures ' ' !in BeforeSpace(s)
    ensures ' ' in s ==> s == BeforeSpace(s) + [' '] + AfterSpace(s) && FromFirst(s, ' ') == [' '] + AfterSpace(s)
    ensures ' ' !in s ==> BeforeSpace(s) == s && AfterSpace(s) == [] && FromFirst(s, ' ') == []
  {
    var i := FirstIndex(s, ' ', 0);
    if i < |s| {
      assert s[i] in s;
      assert s == s[..i] + [' '] + s[i + 1..];
    }
  }

  lemma {:induction false} NoSpaceBytes(s: string)
    requires ' ' !in s
    ensures SPACE !in Utf8.Encode(s)
  {
    if s != [] {
      assert s[0] in s;
      NoSpaceBytes(s[1..]);
    }
  }

  lemma {:induction false} SpaceByte(a: string, b: string)
    ensures Utf8.Encode(a + [' '] + b) == Utf8.Encode(a) + [SPACE] + Utf8.Encode(b)
  {
    Utf8.EncodeAppend(a, [' ']);
    Utf8.EncodeAppend(a + [' '], b);
    assert Utf8.Encode([' ']) == [SPACE] by { assert [' '][1..] == []; }
  }

  lemma FirstSpaceAt(a: bytes, b: bytes)
    requires SPACE !in a
    ensures FirstIndex(a + [SPACE] + b, SPACE, 0) == |a|
    ensures var line := a + [SPACE] + b; line[..|a|] == a && line[|a| + 1..] == b && line[|a|..] == [SPACE] + b
  {
    FirstIndexUnique(a + [SPACE] + b, SPACE, 0, |a|);
  }

  lemma {:induction false} FromSpaceBytes(s: string)
    ensures FromFirst(Utf8.Encode(s), SPACE) == Utf8.Encode(FromFirst(s, ' '))
  {
    AroundSpace(s);
    if ' ' in s {
      SpaceByte(BeforeSpace(s), AfterSpace(s));
      NoSpaceBytes(BeforeSpace(s));
      FirstSpaceAt(Utf8.Encode(BeforeSpace(s)), Utf8.Encode(AfterSpace(s)));
      SpaceByte([], AfterSpace(s));
      assert [] + [' '] + AfterSpace(s) == [' '] + AfterSpace(s);
    } else {
      NoSpaceBytes(s);
      FirstIndexAbsent(Utf8.Encode(s), SPACE, 0);
    }
  }

  /** On a valid UTF-8 line the rewriting of bytes is the rewriting of text. */
  lemma {:induction false} SwapBytes(s: string, path: string)
    ensures RewriteFirst(Utf8.Encode(s), Utf8.Encode(path)) == Utf8.Encode(SwapPath(s, path))
  {
    AroundSpace(s);
    if ' ' in s {
      var a, rest := BeforeSpace(s), AfterSpace(s);
      SpaceByte(a, rest);
      NoSpaceBytes(a);
      FirstSpaceAt(Utf8.Encode(a), Utf8.Encode(rest));
      FromSpaceBytes(rest);
      SpaceByte(a, path + FromFirst(rest, ' '));
      Utf8.EncodeAppend(path, FromFirst(rest, ' '));
    } else {
      NoSpaceBytes(s);
      FirstIndexAbsent(Utf8.Encode(s), SPACE, 0);
    }
  }

  lemma {:induction false} TokensAtSpace(s: string)
    ensures Tokens(s) == Tokens(BeforeSpace(s)) + Tokens(AfterSpace(s))
    ensures Tokens(FromFirst(s, ' ')) == Tokens(AfterSpace(s))
  {
    AroundSpace(s);
    if ' ' in s {
      TokensSeparated(BeforeSpace(s), ' ', AfterSpace(s));
      TokensSeparated([], ' ', AfterSpace(s));
      assert [] + [' '] + AfterSpace(s) == [' '] + AfterSpace(s);
      assert Tokens([]) + Tokens(AfterSpace(s)) == Tokens(AfterSpace(s));
    } else {
      assert Tokens(s) + [] == Tokens(s);
    }
  }

  lemma {:induction false} TokensSwapped(s: string, path: string)
    requires ' ' in s && IsWord(path)
    ensures Tokens(SwapPath(s, path)) == Tokens(BeforeSpace(s)) + ([path] + Tokens(AfterSpace(AfterSpace(s))))
  {
    var tail := FromFirst(AfterSpace(s), ' ');
    AroundSpace(AfterSpace(s));
    TokensSeparated(BeforeSpace(s), ' ', path + tail);
    TokensHead(path, tail);
    TokensAtSpace(AfterSpace(s));
  }

  /** One token stands before the first space and one between the first two. */
  predicate WellSpaced(s: string)
  {
    ' ' in s && |Tokens(BeforeSpace(s))| == 1 && |Tokens(BeforeSpace(AfterSpace(s)))| == 1
  }

  lemma MethodsHaveNoSlash(m: string)
    requires IsValidMethod(m)
    ensures m != "" && m[0] != '/'
  {
  }

  /** Putting `path` in place of `m` keeps three items, with `path` neither first nor last,
      exactly when it replaced one item between one and one. */
  lemma {:induction false} SwappedTokens(a: seq<string>, m: seq<string>, t: seq<string>, path: string)
    requires |a + (m + t)| == 3 && path != (a + (m + t))[0] && path != (a + (m + t))[2]
    ensures var out := a + ([path] + t);
            |out| == 3 && out[0] != path && out[2] != path <==> |a| == 1 && |m| == 1
    ensures |a| == 1 && |m| == 1 ==> a + ([path] + t) == [(a + (m + t))[0], path, (a + (m + t))[2]]
  {
    assert (a + ([path] + t))[|a|] == path;
    if |a| == 1 && |m| == 1 { assert a + (m + t) == [a[0], m[0], t[0]]; }
  }

  lemma VersionIsNoPath(path: string)
    requires path != [] && path[0] == '/'
    ensures path != "HTTP/1.1"
  {
    assert "HTTP/1.1"[0] == 'H';
  }

  lemma {:induction false} FirstTokenKept(a: seq<string>, m: seq<string>, t: seq<string>, path: string)
    requires |a + (m + t)| == 3 && path != [] && path[0] == '/' && (a + (m + t))[0] != "HTTP/1.1"
    ensures (a + ([path] + t))[0] != "HTTP/1.1"
  {
    VersionIsNoPath(path);
    if a == [] { assert (a + ([path] + t))[0] == path; } else { assert (a + ([path] + t))[0] == (a + (m + t))[0]; }
  }

  /** The rewritten request line has the same method and version and the new path when the
      line is well spaced, and is not a request line at all when it is not. */
  lemma {:induction false} PathSwappedIffWellSpaced(s: string, path: string)
    requires ValidFirstTokens(Tokens(s)) && Tokens(s)[0] != "HTTP/1.1" && ' ' in s
    requires IsWord(path) && path[0] == '/'
    ensures ValidFirstTokens(Tokens(SwapPath(s, path))) <==> WellSpaced(s)
    ensures WellSpaced(s) ==> Tokens(SwapPath(s, path)) == [Tokens(s)[0], path, Tokens(s)[2]]
  {
    TokensAtSpace(s);
    TokensAtSpace(AfterSpace(s));
    TokensSwapped(s, path);
    var a, m, t := Tokens(BeforeSpace(s)), Tokens(BeforeSpace(AfterSpace(s))), Tokens(AfterSpace(AfterSpace(s)));
    MethodsHaveNoSlash(Tokens(s)[0]);
    VersionIsNoPath(path);
    SwappedTokens(a, m, t, path);
    FirstTokenKept(a, m, t, path);
    RequestTokens(a + ([path] + t), path);
  }

  lemma RequestTokens(out: seq<string>, path: string)
    requires path != [] && path[0] == '/' && |out| > 0 && out[0] != "HTTP/1.1"
    ensures ValidFirstTokens(out) ==> |out| == 3 && out[0] != path && out[2] != path
  {
    VersionIsNoPath(path);
    if ValidFirstTokens(out) { MethodsHaveNoSlash(out[0]); }
  }

  /** A request line in UTF-8 stays one exactly when it is well spaced or has no space, in
      which case nothing is replaced. */
  lemma {:induction false} SwappedLineIsValid(line: bytes, path: string)
    requires ValidFirstLine(line) && Utf8.FromUtf8(line).Some?
    requires Tokens(Utf8.FromUtf8(line).value)[0] != "HTTP/1.1"
    requires IsWord(path) && path[0] == '/'
    ensures var s := Utf8.FromUtf8(line).value;
            ValidFirstLine(RewriteFirst(line, Utf8.Encode(path))) <==> (' ' in s ==> WellSpaced(s))
  {
    var s := Utf8.FromUtf8(line).value;
    Utf8.EncodeUndoesDecode(line);
    SwapBytes(s, path);
    Utf8.DecodeUndoesEncode(SwapPath(s, path));
    if ' ' in s { PathSwappedIffWellSpaced(s, path); }
  }

  lemma {:induction false} TwoWords(a: string, b: string)
    requires IsWord(a) && IsWord(b)
    ensures Tokens(a + [' '] + b) == [a, b]
  {
    TokensOfWord(a);
    TokensOfWord(b);
    TokensSeparated(a, ' ', b);
  }

  lemma Displays<T>(a: T, b: T, c: T, d: T)
    ensures [a] + [c, d] == [a, c, d] && [a] + ([b] + [c, d]) == [a, b, c, d]
  {
  }

  lemma {:induction false} DoubleSpaceTokens(s: string, verb: string, rest: string, last: string, words: (string, string), path: string)
    requires IsWord(verb) && IsWord(words.0) && IsWord(words.1) && IsWord(path)
    requires s == verb + [' '] + rest && rest == [] + [' '] + last && last == words.0 + [' '] + words.1
    ensures Tokens(s) == [verb, words.0, words.1]
    ensures Tokens(SwapPath(s, path)) == [verb, path, words.0, words.1]
  {
    TwoWords(words.0, words.1);
    TokensOfWord(verb);
    DoubleSpaced(s, verb, rest, last, path);
    Displays(verb, path, words.0, words.1);
  }

  lemma ThreeTokens(verb: string, path: string, target: string, version: string)
    requires IsValidMethod(verb) && verb != "HTTP/1.1" && version == "HTTP/1.1"
    ensures ValidFirstTokens([verb, target, version]) && !ValidFirstTokens([verb, path, target, version])
  {
    assert [verb, path, target, version][0] == verb && |[verb, path, target, version]| == 4;
  }

  lemma MethodIsNoVersion(verb: string)
    requires IsValidMethod(verb)
    ensures verb != "HTTP/1.1"
  {
    assert |"HTTP/1.1"| == 8;
  }

  /** Every request line with two spaces after the method is a valid first line, and the
      rewritten one is not: the new path goes between the spaces. */
  lemma {:induction false} DoubleSpaceBreaksLine(s: string, verb: string, rest: string, last: string, words: (string, string), path: string)
    requires IsWord(verb) && IsWord(words.0) && IsWord(words.1) && IsWord(path) && IsValidMethod(verb) && words.1 == "HTTP/1.1"
    requires s == verb + [' '] + rest && rest == [] + [' '] + last && last == words.0 + [' '] + words.1
    ensures ValidFirstTokens(Tokens(s)) && !ValidFirstTokens(Tokens(SwapPath(s, path)))
  {
    DoubleSpaceTokens(s, verb, rest, last, words, path);
    MethodIsNoVersion(verb);
    ThreeTokens(verb, path, words.0, words.1);
  }

  lemma {:induction false} DoubleSpaced(s: string, verb: string, rest: string, last: string, path: string)
    requires s == verb + [' '] + rest && rest == [] + [' '] + last && IsWord(verb) && IsWord(path)
    ensures Tokens(s) == Tokens(verb) + Tokens(last)
    ensures Tokens(SwapPath(s, path)) == Tokens(verb) + ([path] + Tokens(last))
  {
    FirstIndexUnique(s, ' ', 0, |verb|);
    FirstIndexUnique(rest, ' ', 0, 0);
    assert BeforeSpace(s) == verb && AfterSpace(s) == rest && AfterSpace(rest) == last;
    TokensSeparated(verb, ' ', rest);
    TokensSeparated([], ' ', last);
    TokensSwapped(s, path);
  }
}
