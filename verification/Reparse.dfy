/** The rewritten head, read again by the same parser: the same lines, the same framing. */
module Reparse {
  import opened Prelude
  import opened Text
  import opened HttpHead
  import opened HeadRewrite
  import Utf8

  // ----- lines without a line break inside

  ghost predicate NoCrlf(l: bytes) { forall i :: 0 <= i ==> !IsCrlf(l, i) }

  ghost predicate Clean(lines: seq<bytes>) { forall k :: 0 <= k < |lines| ==> lines[k] != [] && NoCrlf(lines[k]) }

  lemma {:induction false} NoCrlfConcat(a: bytes, b: bytes)
    requires NoCrlf(a) && NoCrlf(b) && !(a != [] && b != [] && a[|a| - 1] == CR && b[0] == LF)
    ensures NoCrlf(a + b)
  {
    forall i | 0 <= i ensures !IsCrlf(a + b, i) {
      if i + 1 < |a| {
        assert !IsCrlf(a, i);
      } else if |a| <= i {
        assert !IsCrlf(b, i - |a|);
      }
    }
  }

  lemma {:induction false} NoCrlfSlice(l: bytes, i: nat, j: nat)
    requires NoCrlf(l) && i <= j <= |l|
    ensures NoCrlf(l[i..j])
  {
    forall k | 0 <= k ensures !IsCrlf(l[i..j], k) { assert !IsCrlf(l, i + k); }
  }

  lemma {:induction false} CrlfAfter(prefix: bytes, l: bytes, rest: bytes)
    requires NoCrlf(l)
    ensures FindCrlf(prefix + l + CRLF + rest, |prefix|) == Some(|prefix| + |l|)
  {
    var b := prefix + l + CRLF + rest;
    var at := |prefix| + |l|;
    assert b[at] == CR && b[at + 1] == LF;
    forall i | |prefix| <= i < at ensures !IsCrlf(b, i) {
      if i + 1 < at {
        assert !IsCrlf(l, i - |prefix|);
        assert b[i] == l[i - |prefix|] && b[i + 1] == l[i + 1 - |prefix|];
      }
    }
    CrlfUnique(b, |prefix|, at);
  }

  lemma {:induction false} RegroupLine(prefix: bytes, l: bytes, more: bytes, tail: bytes)
    ensures prefix + (l + CRLF + more) + CRLF + tail == (prefix + l + CRLF) + more + CRLF + tail
    ensures prefix + (l + CRLF + more) + CRLF + tail == prefix + l + CRLF + (more + CRLF + tail)
  {
  }

  lemma {:induction false} LinesFirst(b: bytes, pos: nat, end: nat, l: bytes, more: Block)
    requires pos <= end && end + 2 <= |b| && FindCrlf(b, pos) == Some(end) && b[pos..end] == l != []
    requires Lines(b, end + 2) == Some(more)
    ensures Lines(b, pos) == Some(Block([l] + more.lines, more.end))
  {
  }

  lemma {:induction false} FirstOfJoined(prefix: bytes, l: bytes, more: bytes, tail: bytes, rest: Block)
    requires l != [] && NoCrlf(l) && Lines((prefix + l + CRLF) + more + CRLF + tail, |prefix + l + CRLF|) == Some(rest)
    ensures Lines(prefix + (l + CRLF + more) + CRLF + tail, |prefix|) == Some(Block([l] + rest.lines, rest.end))
  {
    var b := prefix + (l + CRLF + more) + CRLF + tail;
    RegroupLine(prefix, l, more, tail);
    CrlfAfter(prefix, l, more + CRLF + tail);
    assert b[|prefix|..|prefix| + |l|] == l;
    LinesFirst(b, |prefix|, |prefix| + |l|, l, rest);
  }

  /** Splitting joined lines gives the lines back. */
  lemma {:induction false} LinesOfUnlines(prefix: bytes, lines: seq<bytes>, tail: bytes)
    requires Clean(lines)
    ensures Lines(prefix + Unlines(lines) + CRLF + tail, |prefix|) == Some(Block(lines, |prefix| + |Unlines(lines)| + 2))
    decreases |lines|
  {
    if lines == [] {
      CrlfAfter(prefix, [], tail);
      assert prefix + [] == prefix;
    } else {
      var l, more := lines[0], Unlines(lines[1..]);
      LinesOfUnlines(prefix + l + CRLF, lines[1..], tail);
      FirstOfJoined(prefix, l, more, tail, Block(lines[1..], |prefix| + |l| + 2 + |more| + 2));
      assert [l] + lines[1..] == lines;
    }
  }

  lemma {:induction false} LinesAreClean(b: bytes, pos: nat)
    requires pos <= |b| && Lines(b, pos).Some?
    ensures Clean(Lines(b, pos).value.lines)
    decreases |b| - pos
  {
    LinesNext(b, pos);
    var next := FindCrlf(b, pos).value;
    if next != pos {
      LinesAreClean(b, next + 2);
      CrlfFound(b, pos);
      var l := b[pos..next];
      forall i | 0 <= i ensures !IsCrlf(l, i) { if i + 1 < |l| { assert !IsCrlf(b, pos + i); } }
    }
  }

  // ----- framing, line by line

  function LineFraming(l: bytes, current: ContentLength): (r: Result<ContentLength>)
    requires HasColon(l)
  {
    Framing(KindOf(NameOf(l)), ValueSlice(l, FirstIndex(l, COLON, 0) + 2, |l|), current)
  }

  function FoldFraming(lines: seq<bytes>, current: ContentLength): (r: Result<ContentLength>)
    requires AllHaveColon(lines)
  {
    if lines == [] then Done(current)
    else match LineFraming(lines[0], current)
      case Done(next) => FoldFraming(lines[1..], next)
      case Incomplete => Incomplete
      case Panicked => Panicked
  }

  lemma {:induction false} ColonOfLine(b: bytes, pos: nat, end: nat)
    requires pos <= end <= |b| && HasColon(b[pos..end])
    ensures FirstIndex(b, COLON, pos) == pos + FirstIndex(b[pos..end], COLON, 0) < end
  {
    var l := b[pos..end];
    var c := FirstIndex(l, COLON, 0);
    assert c < |l|;
    forall i | pos <= i < pos + c ensures b[i] != COLON { assert l[i - pos] == b[i]; }
    FirstIndexUnique(b, COLON, pos, pos + c);
  }

  lemma {:induction false} SliceOfLine(b: bytes, pos: nat, end: nat, i: nat)
    requires pos <= end <= |b|
    ensures ValueSlice(b, pos + i, end) == ValueSlice(b[pos..end], i, end - pos)
    ensures pos + i <= end ==> b[pos..pos + i] == b[pos..end][..i]
  {
    if pos + i <= end { assert b[pos + i..end] == b[pos..end][i..end - pos]; }
  }

  lemma NoteFraming(kind: HeaderKind, value: Option<bytes>, at: Position, seen: Seen)
    ensures Note(kind, value, at, seen).Done? <==> Framing(kind, value, seen.contentLength).Done?
    ensures Note(kind, value, at, seen).Done? ==> Note(kind, value, at, seen).value.contentLength == Framing(kind, value, seen.contentLength).value
  {
  }

  lemma {:induction false} ReadAtIsLocal(b: bytes, pos: nat, end: nat, l: bytes, c: nat, seen: Seen)
    requires pos <= end <= |b| && b[pos..end] == l && c < |l| && c == FirstIndex(l, COLON, 0)
    ensures ReadAt(b, pos, pos + c, end, seen) == Note(KindOf(NameOf(l)), ValueSlice(l, c + 2, |l|), Position(pos + c + 2, end), seen)
  {
    assert NameOf(l) == b[pos..pos + c] by { SliceOfLine(b, pos, end, c); }
    assert ValueSlice(l, c + 2, |l|) == ValueSlice(b, pos + (c + 2), end) by { SliceOfLine(b, pos, end, c + 2); }
  }

  lemma ReadLineAt(b: bytes, start: nat, end: nat, separator: nat, seen: Seen)
    requires start <= end <= |b| && start <= separator < |b| && FirstIndex(b, COLON, start) == separator
    ensures ReadLine(b, start, end, seen) == ReadAt(b, start, separator, end, seen)
  {
  }

  lemma {:induction false} LineIsNote(b: bytes, pos: nat, end: nat, l: bytes, seen: Seen)
    requires pos <= end <= |b| && b[pos..end] == l && HasColon(l)
    ensures var c := FirstIndex(l, COLON, 0);
            ReadLine(b, pos, end, seen) == Note(KindOf(NameOf(l)), ValueSlice(l, c + 2, |l|), Position(pos + c + 2, end), seen)
  {
    var c := FirstIndex(l, COLON, 0);
    ColonOfLine(b, pos, end);
    ReadLineAt(b, pos, end, pos + c, seen);
    ReadAtIsLocal(b, pos, end, l, c, seen);
  }

  lemma {:induction false} LineReads(b: bytes, pos: nat, end: nat, l: bytes, seen: Seen)
    requires pos <= end <= |b| && b[pos..end] == l && HasColon(l)
    ensures ReadLine(b, pos, end, seen).Done? <==> LineFraming(l, seen.contentLength).Done?
    ensures ReadLine(b, pos, end, seen).Done? ==> ReadLine(b, pos, end, seen).value.contentLength == LineFraming(l, seen.contentLength).value
  {
    LineIsNote(b, pos, end, l, seen);
    LineNotes(l, pos, end, seen);
  }

  lemma {:induction false} LineNotes(l: bytes, pos: nat, end: nat, seen: Seen)
    requires HasColon(l)
    ensures var c := FirstIndex(l, COLON, 0);
            var noted := Note(KindOf(NameOf(l)), ValueSlice(l, c + 2, |l|), Position(pos + c + 2, end), seen);
            var framing := LineFraming(l, seen.contentLength);
            (noted.Done? <==> framing.Done?) && (noted.Done? ==> noted.value.contentLength == framing.value)
  {
    var c := FirstIndex(l, COLON, 0);
    NoteFraming(KindOf(NameOf(l)), ValueSlice(l, c + 2, |l|), Position(pos + c + 2, end), seen);
  }

  lemma FoldFirst(l: bytes, more: seq<bytes>, current: ContentLength)
    requires HasColon(l) && AllHaveColon(more)
    ensures AllHaveColon([l] + more)
    ensures FoldFraming([l] + more, current)
         == match LineFraming(l, current) case Done(next) => FoldFraming(more, next) case Incomplete => Incomplete case Panicked => Panicked
  {
    assert ([l] + more)[1..] == more;
  }

  /** What a parse of the rest of a head gives, by the fold of the framing of its lines. */
  ghost predicate Folds(r: Result<Headers>, folded: Result<ContentLength>, firstLineEnd: nat, end: nat)
  {
    && (r.Done? <==> folded.Done?)
    && (r.Done? ==> r.value.contentLength == folded.value && r.value.end == end && r.value.firstLineEnd == firstLineEnd)
  }

  lemma {:induction false} FoldNext(b: bytes, pos: nat, firstLineEnd: nat, seen: Seen, next: nat, more: Block)
    requires pos <= |b| && FindCrlf(b, pos) == Some(next) && next != pos && HasColon(b[pos..next]) && AllHaveColon(more.lines)
    requires var line := ReadLine(b, pos, next, seen);
             line.Done? ==> Folds(ParseFrom(b, next + 2, firstLineEnd, line.value), FoldFraming(more.lines, line.value.contentLength), firstLineEnd, more.end)
    ensures AllHaveColon([b[pos..next]] + more.lines)
    ensures Folds(ParseFrom(b, pos, firstLineEnd, seen), FoldFraming([b[pos..next]] + more.lines, seen.contentLength), firstLineEnd, more.end)
  {
    LineReads(b, pos, next, b[pos..next], seen);
    FoldFirst(b[pos..next], more.lines, seen.contentLength);
    ParseFromNext(b, pos, firstLineEnd, seen, next);
  }

  lemma {:induction false} FoldEnd(b: bytes, pos: nat, firstLineEnd: nat, seen: Seen)
    requires pos <= |b| && FindCrlf(b, pos) == Some(pos)
    ensures Folds(ParseFrom(b, pos, firstLineEnd, seen), FoldFraming([], seen.contentLength), firstLineEnd, pos + 2)
    ensures Lines(b, pos) == Some(Block([], pos + 2))
  {
  }

  /** On lines that each have a colon, the parser computes the fold of their framing. */
  lemma {:induction false} ParseIsFold(b: bytes, pos: nat, firstLineEnd: nat, seen: Seen, block: Block)
    requires pos <= |b| && Lines(b, pos) == Some(block) && AllHaveColon(block.lines)
    ensures Folds(ParseFrom(b, pos, firstLineEnd, seen), FoldFraming(block.lines, seen.contentLength), firstLineEnd, block.end)
    decreases |b| - pos
  {
    var next, more := FirstAndMore(b, pos, block);
    if next == pos {
      FoldEnd(b, pos, firstLineEnd, seen);
    } else {
      ColonsNext(b[pos..next], more.lines);
      var line := ReadLine(b, pos, next, seen);
      if line.Done? { ParseIsFold(b, next + 2, firstLineEnd, line.value, more); }
      FoldNext(b, pos, firstLineEnd, seen, next, more);
    }
  }

  // ----- what the rewriting leaves alone

  predicate IsFraming(name: bytes) { KindOf(name).LengthHeader? || KindOf(name).EncodingHeader? }

  lemma {:induction false} NonFramingLine(l: bytes, current: ContentLength)
    requires HasColon(l) && !IsFraming(NameOf(l))
    ensures LineFraming(l, current) == Done(current)
  {
  }

  ghost predicate NonFraming(lines: seq<bytes>) { forall k :: 0 <= k < |lines| ==> HasColon(lines[k]) && !IsFraming(NameOf(lines[k])) }

  lemma {:induction false} FoldNonFraming(lines: seq<bytes>, current: ContentLength)
    requires NonFraming(lines)
    ensures AllHaveColon(lines) && FoldFraming(lines, current) == Done(current)
  {
    if lines != [] {
      NonFramingLine(lines[0], current);
      FoldNonFraming(lines[1..], current);
    }
  }

  lemma {:induction false} FoldAppend(a: seq<bytes>, b: seq<bytes>, current: ContentLength)
    requires AllHaveColon(a) && AllHaveColon(b)
    ensures AllHaveColon(a + b)
    ensures FoldFraming(a, current).Done? ==> FoldFraming(a + b, current) == FoldFraming(b, FoldFraming(a, current).value)
  {
    if a == [] {
      assert a + b == b;
    } else {
      assert (a + b)[1..] == a[1..] + b;
      var first := LineFraming(a[0], current);
      FoldAppend(a[1..], b, if first.Done? then first.value else current);
    }
  }

  /** No configured header name is `content-length` or `transfer-encoding`, the names are
      names, and no text the proxy writes holds a line break. */
  ghost predicate Harmless(cfg: Config)
  {
    && (forall i :: 0 <= i < |cfg.remove| ==> !IsFraming(cfg.remove[i]))
    && (forall i :: 0 <= i < |cfg.added| ==>
          !IsFraming(cfg.added[i].name) && IsToken(cfg.added[i].name) && OneLineText(cfg.added[i].value))
    && (cfg.hostOverride.Some? ==> OneLineText(cfg.hostOverride.value))
    && (cfg.side.Request? && cfg.side.clientIp.Some? ==> OneLineText(cfg.side.clientIp.value))
    && (cfg.side.Request? && cfg.side.country.Some? ==> OneLineText(cfg.side.country.value))
    && (cfg.mcpPath.Some? ==> OneLineText(cfg.mcpPath.value))
  }

  predicate OneLineText(s: bytes) { CR !in s && LF !in s }

  predicate IsToken(s: bytes) { OneLineText(s) && COLON !in s }

  lemma KindOfSame(a: bytes, b: bytes)
    requires Lowered(a) == Lowered(b)
    ensures KindOf(a) == KindOf(b)
  {
  }

  lemma DroppedIsNotFraming(cfg: Config, name: bytes)
    requires Harmless(cfg) && Dropped(cfg, name)
    ensures !IsFraming(name)
  {
    if cfg.hostOverride.Some? && (Named(name, HOST) || Named(name, PROXY_TO)) {
      assert |HOST| == 4 && |PROXY_TO| == 8;
    } else if exists i :: 0 <= i < |cfg.remove| && SameName(cfg.remove[i], name) {
      var i :| 0 <= i < |cfg.remove| && SameName(cfg.remove[i], name);
      KindOfSame(cfg.remove[i], name);
    } else {
      var i :| 0 <= i < |cfg.added| && SameName(cfg.added[i].name, name);
      KindOfSame(cfg.added[i].name, name);
    }
  }

  lemma {:induction false} NameOfHeader(name: bytes, value: bytes)
    requires COLON !in name
    ensures HasColon(HeaderLine(name, value)) && NameOf(HeaderLine(name, value)) == name && HeaderLine(name, value) != []
  {
    var l := HeaderLine(name, value);
    assert l[|name|] == COLON;
    FirstIndexUnique(l, COLON, 0, |name|);
    assert l[..|name|] == name;
  }

  lemma ForwardedName()
    ensures IsToken(X_FORWARDED_FOR) && |X_FORWARDED_FOR| == 15
  {
  }

  lemma CountryName()
    ensures IsToken(CF_IPCOUNTRY) && |CF_IPCOUNTRY| == 12
  {
  }

  lemma HostName()
    ensures IsToken(HOST_NAME) && |HOST_NAME| == 4
  {
  }

  lemma ConnectionName()
    ensures IsToken(CONNECTION) && |CONNECTION| == 10
  {
  }

  lemma HstsName()
    ensures IsToken(HSTS) && |HSTS| == 25
  {
  }

  lemma OwnValues()
    ensures OneLineText(CLOSE) && OneLineText(HSTS_VALUE)
  {
  }

  lemma ShortNameIsNotFraming(name: bytes)
    requires |name| != 14 && |name| != 17
    ensures !IsFraming(name)
  {
  }

  lemma {:induction false} ReplacedIsNotFraming(cfg: Config, l: bytes)
    requires Harmless(cfg) && HasColon(l) && RewriteLine(cfg, l) != [l]
    ensures !IsFraming(NameOf(l))
  {
    var name := NameOf(l);
    if Dropped(cfg, name) {
      DroppedIsNotFraming(cfg, name);
    } else {
      assert |name| == 15 || |name| == 12;
      ShortNameIsNotFraming(name);
    }
  }

  lemma {:induction false} WrittenHeader(name: bytes, value: bytes)
    requires IsToken(name) && |name| != 14 && |name| != 17
    ensures NonFraming([HeaderLine(name, value)])
  {
    NameOfHeader(name, value);
    ShortNameIsNotFraming(name);
  }

  /** A rewritten line frames the body exactly as the line it replaces. */
  lemma {:induction false} RewrittenLineFrames(cfg: Config, l: bytes, current: ContentLength)
    requires Harmless(cfg) && HasColon(l)
    ensures AllHaveColon(RewriteLine(cfg, l)) && FoldFraming(RewriteLine(cfg, l), current) == LineFraming(l, current)
  {
    var out := RewriteLine(cfg, l);
    if out == [l] {
      FoldFirst(l, [], current);
      assert [l] + [] == [l];
    } else {
      ReplacedIsNotFraming(cfg, l);
      NonFramingLine(l, current);
      if out != [] {
        ForwardedName();
        WrittenHeader(X_FORWARDED_FOR, ForwardedValue(l) + [COMMA] + cfg.ClientIp().value);
      }
      FoldNonFraming(out, current);
    }
  }

  lemma {:induction false} RewrittenFrames(cfg: Config, lines: seq<bytes>, current: ContentLength)
    requires Harmless(cfg) && AllHaveColon(lines) && FoldFraming(lines, current).Done?
    ensures AllHaveColon(Rewritten(cfg, lines)) && FoldFraming(Rewritten(cfg, lines), current) == FoldFraming(lines, current)
  {
    if lines != [] {
      RewrittenLineFrames(cfg, lines[0], current);
      RewrittenFrames(cfg, lines[1..], LineFraming(lines[0], current).value);
      FoldAppend(RewriteLine(cfg, lines[0]), Rewritten(cfg, lines[1..]), current);
    }
  }

  /** Lines the proxy may write: clean, with a name of their own that frames nothing. */
  ghost predicate Good(lines: seq<bytes>) { Clean(lines) && NonFraming(lines) }

  lemma GoodConcat(a: seq<bytes>, b: seq<bytes>)
    requires Good(a) && Good(b)
    ensures Good(a + b)
  {
  }

  lemma {:induction false} OneLineIsClean(s: bytes)
    requires OneLineText(s)
    ensures NoCrlf(s)
  {
    forall i | 0 <= i ensures !IsCrlf(s, i) { if i < |s| { assert s[i] in s; } }
  }

  lemma {:induction false} GoodHeader(name: bytes, value: bytes)
    requires IsToken(name) && !IsFraming(name) && OneLineText(value)
    ensures Good([HeaderLine(name, value)])
  {
    NameOfHeader(name, value);
    OneLineIsClean(HeaderLine(name, value));
  }

  lemma {:induction false} GoodAdded(added: seq<Added>)
    requires forall i :: 0 <= i < |added| ==> !IsFraming(added[i].name) && IsToken(added[i].name) && OneLineText(added[i].value)
    ensures Good(AddedLines(added))
  {
    if added != [] {
      GoodAdded(added[1..]);
      GoodHeader(added[0].name, added[0].value);
      GoodConcat(if added[0].template == [] || added[0].value == [] then [] else [HeaderLine(added[0].name, added[0].value)],
                 AddedLines(added[1..]));
    }
  }

  lemma {:induction false} GoodForwarded(cfg: Config, written: bool)
    requires Harmless(cfg)
    ensures Good(ForwardedLine(cfg, written))
  {
    if ForwardedLine(cfg, written) != [] {
      ForwardedName();
      ShortNameIsNotFraming(X_FORWARDED_FOR);
      GoodHeader(X_FORWARDED_FOR, cfg.ClientIp().value);
    }
  }

  lemma {:induction false} GoodCountry(cfg: Config)
    requires Harmless(cfg)
    ensures Good(CountryLine(cfg))
  {
    if CountryLine(cfg) != [] {
      CountryName();
      ShortNameIsNotFraming(CF_IPCOUNTRY);
      GoodHeader(CF_IPCOUNTRY, cfg.side.country.value);
    }
  }

  lemma {:induction false} GoodHost(cfg: Config)
    requires Harmless(cfg)
    ensures Good(HostLine(cfg))
  {
    if HostLine(cfg) != [] {
      HostName();
      ShortNameIsNotFraming(HOST_NAME);
      GoodHeader(HOST_NAME, cfg.hostOverride.value);
    }
  }

  lemma {:induction false} GoodConnection(cfg: Config)
    ensures Good(ConnectionLine(cfg))
  {
    ConnectionName();
    OwnValues();
    ShortNameIsNotFraming(CONNECTION);
    GoodHeader(CONNECTION, CLOSE);
  }

  lemma {:induction false} GoodHsts(cfg: Config)
    ensures Good(HstsLine(cfg))
  {
    HstsName();
    OwnValues();
    ShortNameIsNotFraming(HSTS);
    GoodHeader(HSTS, HSTS_VALUE);
  }

  lemma {:induction false} GoodInjected(cfg: Config, written: bool)
    requires Harmless(cfg)
    ensures Good(Injected(cfg, written))
  {
    GoodForwarded(cfg, written);
    GoodCountry(cfg);
    GoodHost(cfg);
    GoodAdded(cfg.added);
    GoodConnection(cfg);
    GoodHsts(cfg);
    GoodSix(ForwardedLine(cfg, written), CountryLine(cfg), HostLine(cfg), AddedLines(cfg.added), ConnectionLine(cfg), HstsLine(cfg));
  }

  lemma {:induction false} GoodSix(a: seq<bytes>, b: seq<bytes>, c: seq<bytes>, d: seq<bytes>, e: seq<bytes>, f: seq<bytes>)
    requires Good(a) && Good(b) && Good(c) && Good(d) && Good(e) && Good(f)
    ensures Good(a + b + c + d + e + f)
  {
    GoodConcat(a, b);
    GoodConcat(a + b, c);
    GoodConcat(a + b + c, d);
    GoodConcat(a + b + c + d, e);
    GoodConcat(a + b + c + d + e, f);
  }

  // ----- the client's own X-Forwarded-For stays on one line

  lemma {:induction false} TrimStartIsSuffix(s: string)
    ensures |TrimStart(s)| <= |s| && TrimStart(s) == s[|s| - |TrimStart(s)|..]
  {
    if s != [] && IsSpace(s[0]) { TrimStartIsSuffix(s[1..]); }
  }

  lemma {:induction false} TrimEndIsPrefix(s: string)
    ensures |TrimEnd(s)| <= |s| && TrimEnd(s) == s[..|TrimEnd(s)|]
  {
    if s != [] && IsSpace(s[|s| - 1]) { TrimEndIsPrefix(s[..|s| - 1]); }
  }

  lemma {:induction false} TrimIsSlice(s: string) returns (before: string, after: string)
    ensures s == before + Trim(s) + after
  {
    TrimStartIsSuffix(s);
    TrimEndIsPrefix(TrimStart(s));
    before, after := s[..|s| - |TrimStart(s)|], TrimStart(s)[|Trim(s)|..];
  }

  lemma {:induction false} ForwardedValueIsClean(l: bytes)
    requires NoCrlf(l)
    ensures NoCrlf(ForwardedValue(l))
  {
    var c := FirstIndex(l, COLON, 0);
    var value := if c < |l| then l[c + 1..] else [];
    if c < |l| {
      NoCrlfSlice(l, c + 1, |l|);
      assert l[c + 1..|l|] == value;
    }
    if Utf8.FromUtf8(value).Some? {
      Utf8.EncodeUndoesDecode(value);
      TrimmedIsClean(Utf8.FromUtf8(value).value);
    }
  }

  lemma {:induction false} TrimmedIsClean(s: string)
    requires NoCrlf(Utf8.Encode(s))
    ensures NoCrlf(Utf8.Encode(Trim(s)))
  {
    var before, after := TrimIsSlice(s);
    Utf8.EncodeAppend(before + Trim(s), after);
    Utf8.EncodeAppend(before, Trim(s));
    var a, b := Utf8.Encode(before), Utf8.Encode(Trim(s));
    NoCrlfSlice(Utf8.Encode(s), |a|, |a| + |b|);
    assert Utf8.Encode(s)[|a|..|a| + |b|] == b;
  }

  lemma {:induction false} ForwardedLineIsClean(l: bytes, ip: bytes)
    requires NoCrlf(l) && OneLineText(ip)
    ensures NoCrlf(HeaderLine(X_FORWARDED_FOR, ForwardedValue(l) + [COMMA] + ip))
  {
    ForwardedName();
    var head, value, tail := X_FORWARDED_FOR + [COLON, SPACE], ForwardedValue(l), [COMMA] + ip;
    ForwardedValueIsClean(l);
    OneLineIsClean(head);
    OneLineIsClean(tail);
    NoCrlfConcat(head, value);
    NoCrlfConcat(head + value, tail);
    assert head + value + tail == HeaderLine(X_FORWARDED_FOR, value + [COMMA] + ip);
  }

  lemma {:induction false} RewrittenLineIsClean(cfg: Config, l: bytes)
    requires Harmless(cfg) && l != [] && NoCrlf(l)
    ensures Clean(RewriteLine(cfg, l))
  {
    var out := RewriteLine(cfg, l);
    if out != [] && out != [l] { ForwardedLineIsClean(l, cfg.ClientIp().value); }
  }

  lemma {:induction false} RewrittenIsClean(cfg: Config, lines: seq<bytes>)
    requires Harmless(cfg) && Clean(lines)
    ensures Clean(Rewritten(cfg, lines))
  {
    if lines != [] {
      RewrittenLineIsClean(cfg, lines[0]);
      RewrittenIsClean(cfg, lines[1..]);
    }
  }

  // ----- the theorem

  lemma {:induction false} FirstLineIsClean(cfg: Config, line: bytes)
    requires Harmless(cfg) && NoCrlf(line)
    ensures NoCrlf(FirstLineOut(cfg, line))
  {
    var i := FirstIndex(line, SPACE, 0);
    if cfg.mcpPath.Some? && i < |line| {
      var rest := line[i + 1..];
      var j := FirstIndex(rest, SPACE, 0);
      NoCrlfSlice(line, 0, i);
      assert line[0..i] == line[..i];
      NoCrlfSlice(line, i + 1 + j, |line|);
      assert line[i + 1 + j..|line|] == rest[j..];
      SwappedIsClean(line[..i], cfg.mcpPath.value, rest[j..]);
    }
  }

  lemma {:induction false} SwappedIsClean(head: bytes, path: bytes, tail: bytes)
    requires NoCrlf(head) && OneLineText(path) && NoCrlf(tail) && (tail != [] ==> tail[0] == SPACE)
    ensures NoCrlf(head + [SPACE] + (path + tail))
  {
    OneLineIsClean(path);
    NoCrlfConcat(path, tail);
    OneLineIsClean([SPACE]);
    NoCrlfConcat(head, [SPACE]);
    NoCrlfConcat(head + [SPACE], path + tail);
  }

  lemma {:induction false} OutLinesFrame(cfg: Config, lines: seq<bytes>, length: ContentLength)
    requires Harmless(cfg) && AllHaveColon(lines) && Clean(lines) && FoldFraming(lines, NoBody) == Done(length)
    ensures Clean(OutLines(cfg, lines)) && AllHaveColon(OutLines(cfg, lines)) && FoldFraming(OutLines(cfg, lines), NoBody) == Done(length)
  {
    RewrittenIsClean(cfg, lines);
    RewrittenFrames(cfg, lines, NoBody);
    GoodInjected(cfg, AnyForwarded(cfg, lines));
    FrameJoined(Rewritten(cfg, lines), Injected(cfg, AnyForwarded(cfg, lines)), length);
  }

  lemma {:induction false} FrameJoined(kept: seq<bytes>, added: seq<bytes>, length: ContentLength)
    requires Clean(kept) && AllHaveColon(kept) && FoldFraming(kept, NoBody) == Done(length) && Good(added)
    ensures Clean(kept + added) && AllHaveColon(kept + added) && FoldFraming(kept + added, NoBody) == Done(length)
  {
    FoldNonFraming(added, length);
    FoldAppend(kept, added, NoBody);
  }

  /** The buffer parses, with its first line up to `first`, these lines and this body length. */
  ghost predicate ReadsAs(b: bytes, first: nat, block: Block, length: ContentLength)
  {
    && Parse(b).Done? && Parse(b).value.firstLineEnd == first && Parse(b).value.end == block.end
    && Parse(b).value.contentLength == length
    && first + 2 <= |b| && Lines(b, first + 2) == Some(block)
  }

  lemma {:induction false} ReadsLines(b: bytes, first: bytes, block: Block, length: ContentLength)
    requires FindCrlf(b, 0) == Some(|first|) && b[..|first|] == first && ValidFirstLine(first)
    requires Lines(b, |first| + 2) == Some(block) && AllHaveColon(block.lines) && FoldFraming(block.lines, NoBody) == Done(length)
    ensures ReadsAs(b, |first|, block, length)
  {
    ParseIsFold(b, |first| + 2, |first|, NOTHING, block);
  }

  lemma {:induction false} WrittenFirst(first: bytes, body: bytes, tail: bytes)
    requires NoCrlf(first)
    ensures var b := first + CRLF + body + CRLF + tail; FindCrlf(b, 0) == Some(|first|) && b[..|first|] == first
  {
    WrittenShape(first, body, tail);
    CrlfAfter([], first, body + CRLF + tail);
  }

  lemma {:induction false} WrittenLines(first: bytes, lines: seq<bytes>, tail: bytes)
    requires Clean(lines)
    ensures var out := first + CRLF + Unlines(lines) + CRLF; Lines(out + tail, |first| + 2) == Some(Block(lines, |out|))
  {
    LinesOfUnlines(first + CRLF, lines, tail);
  }

  lemma {:induction false} ParseWritten(first: bytes, lines: seq<bytes>, length: ContentLength, tail: bytes)
    requires NoCrlf(first) && ValidFirstLine(first) && Clean(lines) && AllHaveColon(lines) && FoldFraming(lines, NoBody) == Done(length)
    ensures var out := first + CRLF + Unlines(lines) + CRLF; ReadsAs(out + tail, |first|, Block(lines, |out|), length)
  {
    var out := first + CRLF + Unlines(lines) + CRLF;
    WrittenFirst(first, Unlines(lines), tail);
    WrittenLines(first, lines, tail);
    ReadsLines(out + tail, first, Block(lines, |out|), length);
  }

  lemma WrittenShape(first: bytes, body: bytes, tail: bytes)
    ensures first + CRLF + body + CRLF + tail == [] + first + CRLF + (body + CRLF + tail)
    ensures (first + CRLF + body + CRLF + tail)[..|first|] == first
  {
  }

  /** When no configured header touches framing and no injected text breaks a line, the
      rewritten head reads back as one head of exactly its own bytes, whatever follows it,
      with the kept lines and then the injected ones, and with the body length of the
      original. The only other condition is that the first line is still one. */
  lemma {:induction false} RewritingPreservesFraming(cfg: Config, data: bytes, tail: bytes)
    requires Parse(data).Done? && Harmless(cfg)
    requires var h := Parse(data).value;
             h.firstLineEnd + 2 <= |data| && Lines(data, h.firstLineEnd + 2).Some?
             && AllHaveColon(Lines(data, h.firstLineEnd + 2).value.lines)
             && ValidFirstLine(FirstLineOut(cfg, data[..h.firstLineEnd]))
    ensures var h := Parse(data).value;
            var lines, first := Lines(data, h.firstLineEnd + 2).value.lines, data[..h.firstLineEnd];
            var out := Output(cfg, first, lines);
            ReadsAs(out + tail, |FirstLineOut(cfg, first)|, Block(OutLines(cfg, lines), |out|), h.contentLength)
  {
    var h := Parse(data).value;
    ParsedShape(data);
    var lines, first := Lines(data, h.firstLineEnd + 2).value.lines, data[..h.firstLineEnd];
    LinesAreClean(data, h.firstLineEnd + 2);
    ParseIsFold(data, h.firstLineEnd + 2, h.firstLineEnd, NOTHING, Lines(data, h.firstLineEnd + 2).value);
    OutLinesFrame(cfg, lines, h.contentLength);
    FirstIsClean(data);
    FirstLineIsClean(cfg, first);
    ParseWritten(FirstLineOut(cfg, first), OutLines(cfg, lines), h.contentLength, tail);
  }

  lemma {:induction false} FirstIsClean(b: bytes)
    requires FindCrlf(b, 0).Some?
    ensures NoCrlf(b[..FindCrlf(b, 0).value])
  {
    CrlfFound(b, 0);
    var first := b[..FindCrlf(b, 0).value];
    forall i | 0 <= i ensures !IsCrlf(first, i) { if i + 1 < |first| { assert !IsCrlf(b, i); } }
  }

  /** Without a path to swap the first line is still one, so nothing else is needed. */
  lemma {:induction false} PlainFirstLineStays(cfg: Config, data: bytes)
    requires Parse(data).Done? && cfg.mcpPath.None?
    ensures var h := Parse(data).value;
            h.firstLineEnd <= |data| && ValidFirstLine(FirstLineOut(cfg, data[..h.firstLineEnd]))
  {
    ParsedShape(data);
  }

  // ----- X-Forwarded-For

  predicate EndsWith(l: bytes, suffix: bytes) { |suffix| <= |l| && l[|l| - |suffix|..] == suffix }

  lemma {:induction false} ForwardedLineEnds(l: bytes, ip: bytes)
    ensures EndsWith(HeaderLine(X_FORWARDED_FOR, ForwardedValue(l) + [COMMA] + ip), [COMMA] + ip)
  {
    var head := X_FORWARDED_FOR + [COLON, SPACE] + ForwardedValue(l);
    assert HeaderLine(X_FORWARDED_FOR, ForwardedValue(l) + [COMMA] + ip) == head + ([COMMA] + ip);
  }

  /** With a known client every X-Forwarded-For that passes ends in a comma and its address,
      and when none passes one that is its address is added. */
  lemma {:induction false} ForwardedEndsWithClient(cfg: Config, lines: seq<bytes>, ip: bytes)
    requires cfg.ClientIp() == Some(ip)
    ensures forall k :: 0 <= k < |Rewritten(cfg, lines)| && Named(NameOf(Rewritten(cfg, lines)[k]), LOWER_X_FORWARDED_FOR)
              ==> EndsWith(Rewritten(cfg, lines)[k], [COMMA] + ip)
    ensures !AnyForwarded(cfg, lines) ==> ForwardedLine(cfg, AnyForwarded(cfg, lines)) == [HeaderLine(X_FORWARDED_FOR, ip)]
  {
    if lines != [] {
      ForwardedEndsWithClient(cfg, lines[1..], ip);
      ForwardedLineEnds(lines[0], ip);
      assert Rewritten(cfg, lines) == RewriteLine(cfg, lines[0]) + Rewritten(cfg, lines[1..]);
    }
  }
}
