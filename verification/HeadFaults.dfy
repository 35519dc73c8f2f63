/** Where the head parser departs from the text of a header: the byte it skips after the
    colon, the lines it cannot read, and the framing header it lets win. */
module HeadFaults {
  import opened Prelude
  import opened Text
  import opened HttpHead
  import opened HeadRewrite
  import opened Reparse
  import opened HeadMeaning
  import Utf8

  // ----- the skipped byte

  function AfterColon(l: bytes): (r: bytes)
    requires HasColon(l)
  {
    l[FirstIndex(l, COLON, 0) + 1..]
  }

  /** White space of one byte. */
  predicate SpaceByte(b: byte) { 9 <= b <= 13 || b == SPACE }

  lemma {:induction false} TrimEndOfTail(s: string)
    requires s != []
    ensures |TrimEnd(s[1..])| <= |TrimEnd(s)|
  {
    if IsSpace(s[|s| - 1]) && |s| > 1 {
      TrimEndOfTail(s[..|s| - 1]);
      assert s[1..][..|s| - 2] == s[..|s| - 1][1..];
    }
  }

  lemma {:induction false} TrimIsShorter(s: string)
    ensures |Trim(s)| <= |TrimEnd(s)|
  {
    if s != [] && IsSpace(s[0]) {
      TrimIsShorter(s[1..]);
      TrimEndOfTail(s);
    }
  }

  lemma {:induction false} TrimEndAfter(c: char, rest: string)
    requires !IsSpace(c)
    ensures TrimEnd([c] + rest) == [c] + TrimEnd(rest)
  {
    var s := [c] + rest;
    if rest != [] && IsSpace(rest[|rest| - 1]) {
      assert s[..|s| - 1] == [c] + rest[..|rest| - 1];
      TrimEndAfter(c, rest[..|rest| - 1]);
    }
  }

  /** Leaving out the first character of a text leaves its trimmed form exactly when that
      character is white space. */
  lemma {:induction false} TrimSkips(c: char, rest: string)
    ensures Trim([c] + rest) == Trim(rest) <==> IsSpace(c)
  {
    assert ([c] + rest)[1..] == rest;
    if !IsSpace(c) {
      TrimEndAfter(c, rest);
      TrimIsShorter(rest);
    }
  }

  lemma {:induction false} NoDecodeFromContinuation(b: bytes)
    requires b != [] && 0x80 <= b[0] < 0xC0
    ensures Utf8.FromUtf8(b).None?
  {
  }

  lemma EncodedFirst(c: char, rest: bytes)
    ensures var e := Utf8.EncodeChar(c) + rest;
            if c as int < 0x80 then e[0] as int == c as int && e[1..] == rest
            else |e| >= 2 && e[0] >= 0xC0 && 0x80 <= e[1] < 0xC0
  {
  }

  lemma AsciiSpace(c: char, b: byte)
    requires c as int < 0x80 && b as int == c as int
    ensures IsSpace(c) <==> SpaceByte(b)
  {
  }

  lemma {:induction false} SkippedByte(t: bytes)
    requires t != [] && Utf8.FromUtf8(t).Some?
    ensures var rest := Utf8.FromUtf8(t[1..]);
            rest.Some? && Trim(rest.value) == Trim(Utf8.FromUtf8(t).value) <==> SpaceByte(t[0])
  {
    var s := Utf8.FromUtf8(t).value;
    Utf8.EncodeUndoesDecode(t);
    EncodedFirst(s[0], Utf8.Encode(s[1..]));
    if s[0] as int < 0x80 {
      Utf8.DecodeUndoesEncode(s[1..]);
      AsciiSpace(s[0], t[0]);
      TrimSkips(s[0], s[1..]);
      assert s == [s[0]] + s[1..];
    } else {
      NoDecodeFromContinuation(t[1..]);
    }
  }

  /** On a header line with text after its colon, the value read is that text, trimmed,
      exactly when the first byte after the colon is white space. */
  lemma {:induction false} ValueReadIff(l: bytes)
    requires HasColon(l) && AfterColon(l) != [] && Utf8.FromUtf8(AfterColon(l)).Some?
    ensures ValueOf(l).Some?
    ensures var read := Utf8.FromUtf8(ValueOf(l).value);
            read.Some? && Trim(read.value) == Trim(Utf8.FromUtf8(AfterColon(l)).value) <==> SpaceByte(AfterColon(l)[0])
  {
    var c := FirstIndex(l, COLON, 0);
    assert l[c + 2..|l|] == AfterColon(l)[1..];
    SkippedByte(AfterColon(l));
  }

  // ----- when the parse panics

  /** The header lines that have arrived whole, up to the blank line if it has arrived. */
  function ArrivedLines(b: bytes, pos: nat): (r: seq<bytes>)
    requires pos <= |b|
    decreases |b| - pos
  {
    match FindCrlf(b, pos)
    case None => []
    case Some(end) => if end == pos then [] else [b[pos..end]] + ArrivedLines(b, end + 2)
  }

  /** A header about framing whose value cannot be read. */
  predicate Unreadable(l: bytes) { HasColon(l) && !LineFraming(l, NoBody).Done? }

  /** The first such header, if there is one. */
  function FirstUnreadable(lines: seq<bytes>): (r: Option<bytes>)
  {
    if lines == [] then None
    else if Unreadable(lines[0]) then Some(lines[0])
    else FirstUnreadable(lines[1..])
  }

  predicate EndsAtColon(l: bytes) { HasColon(l) && AfterColon(l) == [] }

  lemma FramingByCurrent(kind: HeaderKind, value: Option<bytes>, a: ContentLength, b: ContentLength)
    ensures Framing(kind, value, a).Done? <==> Framing(kind, value, b).Done?
    ensures Framing(kind, value, a).Panicked? <==> (kind.LengthHeader? || kind.EncodingHeader?) && value.None?
  {
  }

  lemma {:induction false} LinePanics(l: bytes, current: ContentLength)
    requires HasColon(l)
    ensures LineFraming(l, current).Panicked? <==> Unreadable(l) && EndsAtColon(l)
    ensures LineFraming(l, current).Done? <==> !Unreadable(l)
  {
    FramingByCurrent(KindOf(NameOf(l)), ValueOf(l), current, NoBody);
    FramingByCurrent(KindOf(NameOf(l)), ValueOf(l), NoBody, NoBody);
  }

  lemma NotePanics(kind: HeaderKind, value: Option<bytes>, at: Position, seen: Seen)
    ensures Note(kind, value, at, seen).Panicked? <==> Framing(kind, value, seen.contentLength).Panicked?
    ensures Note(kind, value, at, seen).Done? <==> Framing(kind, value, seen.contentLength).Done?
  {
  }

  lemma {:induction false} OwnColonReads(b: bytes, pos: nat, end: nat, l: bytes, seen: Seen)
    requires pos <= end <= |b| && b[pos..end] == l && HasColon(l)
    ensures ReadLine(b, pos, end, seen).Panicked? <==> Unreadable(l) && EndsAtColon(l)
    ensures ReadLine(b, pos, end, seen).Done? <==> !Unreadable(l)
  {
    var noted, at := KindOf(NameOf(l)), Position(pos + FirstIndex(l, COLON, 0) + 2, end);
    assert ReadLine(b, pos, end, seen) == Note(noted, ValueOf(l), at, seen) by { LineIsNote(b, pos, end, l, seen); }
    NotePanics(noted, ValueOf(l), at, seen);
    LinePanics(l, seen.contentLength);
  }

  lemma {:induction false} NoColonNoHeader(b: bytes, pos: nat)
    requires pos <= |b| && forall i :: pos <= i < |b| ==> b[i] != COLON
    ensures FirstUnreadable(ArrivedLines(b, pos)) == None
    decreases |b| - pos
  {
    var crlf := FindCrlf(b, pos);
    if crlf.Some? && crlf.value != pos {
      NoColonNoHeader(b, crlf.value + 2);
      var l := b[pos..crlf.value];
      assert !HasColon(l);
      assert ([l] + ArrivedLines(b, crlf.value + 2))[1..] == ArrivedLines(b, crlf.value + 2);
    }
  }

  /** What decides about a panic: the first unreadable header ends at its colon. */
  ghost predicate PanicsOn(lines: seq<bytes>)
  {
    var l := FirstUnreadable(lines);
    l.Some? && EndsAtColon(l.value)
  }

  lemma PanicsOnNext(l: bytes, more: seq<bytes>)
    ensures PanicsOn([l] + more) <==> if Unreadable(l) then EndsAtColon(l) else PanicsOn(more)
  {
    assert ([l] + more)[1..] == more;
  }

  lemma {:induction false} ParseFromPanics(b: bytes, pos: nat, firstLineEnd: nat, seen: Seen)
    requires pos <= |b|
    ensures ParseFrom(b, pos, firstLineEnd, seen).Panicked? <==> PanicsOn(ArrivedLines(b, pos))
    decreases |b| - pos
  {
    var crlf := FindCrlf(b, pos);
    if crlf.Some? && crlf.value != pos {
      var end := crlf.value;
      var l := b[pos..end];
      PanicsOnNext(l, ArrivedLines(b, end + 2));
      ParseFromNext(b, pos, firstLineEnd, seen, end);
      LineDecides(b, pos, end, l, seen);
      var line := ReadLine(b, pos, end, seen);
      if line.Done? { ParseFromPanics(b, end + 2, firstLineEnd, line.value); }
    }
  }

  /** One line: it panics when it ends at its colon, stops the parse when it cannot be read
      or nothing after it has a colon, and otherwise is passed. */
  lemma {:induction false} LineDecides(b: bytes, pos: nat, end: nat, l: bytes, seen: Seen)
    requires pos <= |b| && FindCrlf(b, pos) == Some(end) && end != pos && l == b[pos..end]
    ensures ReadLine(b, pos, end, seen).Panicked? ==> Unreadable(l) && EndsAtColon(l)
    ensures ReadLine(b, pos, end, seen).Done? ==> !Unreadable(l)
    ensures ReadLine(b, pos, end, seen).Incomplete? ==>
              if Unreadable(l) then !EndsAtColon(l) else !PanicsOn(ArrivedLines(b, end + 2))
  {
    CrlfFound(b, pos);
    if HasColon(l) {
      OwnColonReads(b, pos, end, l, seen);
    } else {
      BorrowedColonReads(b, pos, end, seen);
      if FirstIndex(b, COLON, pos) == |b| { NoColonNoHeader(b, end + 2); }
    }
  }

  /** Parsing panics exactly when the first line is valid and, of the header lines that have
      arrived, the first one about framing that cannot be read ends at its colon. */
  lemma {:induction false} ParsePanicsIff(b: bytes)
    ensures Parse(b).Panicked?
       <==> var first := FindCrlf(b, 0);
            first.Some? && ValidFirstLine(b[..first.value]) && PanicsOn(ArrivedLines(b, first.value + 2))
  {
    var first := FindCrlf(b, 0);
    if first.Some? { ParseFromPanics(b, first.value + 2, first.value, NOTHING); }
  }

  // ----- heads that show it

  /** A head of a first line and header lines. */
  function Head(first: bytes, lines: seq<bytes>): (r: bytes) { first + CRLF + Unlines(lines) + CRLF }

  ghost predicate GoodFirst(first: bytes) { NoCrlf(first) && ValidFirstLine(first) }

  /** Every method, target and version in printable characters, one space apart, are a
      first line. */
  lemma {:induction false} RequestLineIsGood(s: string, verb: string, target: string, version: string)
    requires s == verb + [' '] + (target + [' '] + version) && forall i :: 0 <= i < |s| ==> ' ' <= s[i] <= '~'
    requires IsWord(verb) && IsWord(target) && IsWord(version) && IsValidMethod(verb) && version == "HTTP/1.1" && verb != version
    ensures GoodFirst(Utf8.Encode(s))
  {
    RequestLineTokens(verb, target, version);
    Utf8.DecodeUndoesEncode(s);
    AsciiIsOneLine(s);
    OneLineIsClean(Utf8.Encode(s));
  }

  lemma {:induction false} RequestLineTokens(verb: string, target: string, version: string)
    requires IsWord(verb) && IsWord(target) && IsWord(version)
    ensures Tokens(verb + [' '] + (target + [' '] + version)) == [verb, target, version]
  {
    TokensOfWord(verb);
    TokensOfWord(target);
    TokensOfWord(version);
    TokensSeparated(target, ' ', version);
    TokensSeparated(verb, ' ', target + [' '] + version);
    assert [verb] + ([target] + [version]) == [verb, target, version];
  }

  lemma {:induction false} AsciiIsOneLine(s: string)
    requires forall i :: 0 <= i < |s| ==> ' ' <= s[i] <= '~'
    ensures OneLineText(Utf8.Encode(s)) && |Utf8.Encode(s)| == |s| && forall i :: 0 <= i < |s| ==> Utf8.Encode(s)[i] as int == s[i] as int
  {
    if s != [] {
      AsciiIsOneLine(s[1..]);
      EncodedFirst(s[0], Utf8.Encode(s[1..]));
      var e := Utf8.Encode(s);
      forall i | 0 < i < |s| ensures e[i] as int == s[i] as int { assert e[1..][i - 1] == e[i]; }
    }
  }

  /** A header line with one byte of any kind between the colon and the value. */
  function LineWith(name: bytes, x: byte, value: bytes): (r: bytes) { name + [COLON, x] + value }

  lemma {:induction false} LineWithParts(name: bytes, x: byte, value: bytes)
    requires COLON !in name
    ensures var l := LineWith(name, x, value);
            HasColon(l) && NameOf(l) == name && ValueOf(l) == Some(value) && AfterColon(l) == [x] + value
  {
    var l := LineWith(name, x, value);
    assert l[|name|] == COLON;
    FirstIndexUnique(l, COLON, 0, |name|);
    assert l[..|name|] == name && l[|name| + 2..|l|] == value && l[|name| + 1..] == [x] + value;
  }

  lemma {:induction false} LineWithIsClean(name: bytes, x: byte, value: bytes)
    requires OneLineText(name) && x != CR && x != LF && OneLineText(value)
    ensures LineWith(name, x, value) != [] && NoCrlf(LineWith(name, x, value))
  {
    OneLineIsClean(LineWith(name, x, value));
  }

  lemma {:induction false} ParseOneLine(first: bytes, l: bytes, length: ContentLength, tail: bytes)
    requires GoodFirst(first) && l != [] && NoCrlf(l) && HasColon(l) && LineFraming(l, NoBody) == Done(length)
    ensures var r := Parse(Head(first, [l]) + tail);
            r.Done? && r.value.contentLength == length && r.value.firstLineEnd == |first|
            && Lines(Head(first, [l]) + tail, |first| + 2) == Some(Block([l], |Head(first, [l])|))
  {
    assert [l][1..] == [];
    ParseWritten(first, [l], length, tail);
  }

  lemma {:induction false} MoreDigits(c: char, digits: string)
    requires '1' <= c <= '9' && AllDigits(digits)
    ensures AllDigits([c] + digits) && DigitsValue([c] + digits) > DigitsValue(digits)
  {
    if digits != [] {
      var front, n := digits[..|digits| - 1], [c] + digits;
      MoreDigits(c, front);
      assert n[..|n| - 1] == [c] + front;
    }
  }

  /** A content length right after the colon loses its first digit: `Content-Length:15` is
      a body of 5. */
  lemma {:induction false} LengthLosesDigit(first: bytes, name: bytes, c: char, x: byte, digits: string, tail: bytes)
    requires GoodFirst(first) && Named(name, CONTENT_LENGTH) && IsToken(name)
    requires '1' <= c <= '9' && x as int == c as int && digits != [] && AllDigits(digits) && DigitsValue(digits) <= USIZE_MAX
    ensures var r := Parse(Head(first, [LineWith(name, x, Utf8.Encode(digits))]) + tail);
            r.Done? && r.value.contentLength == Known(DigitsValue(digits)) && DigitsValue(digits) < DigitsValue([c] + digits)
  {
    var l := LineWith(name, x, Utf8.Encode(digits));
    LineWithParts(name, x, Utf8.Encode(digits));
    LengthKind(name);
    DigitsFrame(digits, NoBody);
    AsciiIsOneLine(digits);
    LineWithIsClean(name, x, Utf8.Encode(digits));
    ParseOneLine(first, l, Known(DigitsValue(digits)), tail);
    MoreDigits(c, digits);
  }

  lemma {:induction false} HunkedIsNotChunked(s: string)
    requires |s| < 7
    ensures !EqIgnoreCase(Trim(s), "chunked")
  {
    TrimIsShorter(s);
    TrimEndIsPrefix(s);
    assert |"chunked"| == 7;
  }

  lemma ChunkedIsPlain(word: string)
    requires EqIgnoreCase(word, "chunked")
    ensures |word| == 7 && forall i :: 0 <= i < 7 ==> 'A' <= word[i] <= 'z'
  {
    assert forall i :: 0 <= i < 7 ==> Lower(word[i]) == Lower("chunked"[i]);
  }

  lemma {:induction false} ShortEncodingMissed(first: bytes, name: bytes, x: byte, rest: string, tail: bytes)
    requires GoodFirst(first) && Named(name, TRANSFER_ENCODING) && IsToken(name) && x != CR && x != LF
    requires |rest| < 7 && OneLineText(Utf8.Encode(rest))
    ensures var r := Parse(Head(first, [LineWith(name, x, Utf8.Encode(rest))]) + tail); r.Done? && r.value.contentLength == NoBody
  {
    LineWithParts(name, x, Utf8.Encode(rest));
    EncodingKind(name);
    Utf8.DecodeUndoesEncode(rest);
    HunkedIsNotChunked(rest);
    LineWithIsClean(name, x, Utf8.Encode(rest));
    ParseOneLine(first, LineWith(name, x, Utf8.Encode(rest)), NoBody, tail);
  }

  /** The word chunked right after the colon is missed: the head is taken to have no body. */
  lemma {:induction false} ChunkedMissed(first: bytes, name: bytes, word: string, tail: bytes)
    requires GoodFirst(first) && Named(name, TRANSFER_ENCODING) && IsToken(name) && EqIgnoreCase(word, "chunked")
    ensures var r := Parse(Head(first, [name + [COLON] + Utf8.Encode(word)]) + tail); r.Done? && r.value.contentLength == NoBody
  {
    ChunkedIsPlain(word);
    var e := Utf8.Encode(word);
    AsciiIsOneLine(word);
    AsciiIsOneLine(word[1..]);
    EncodedFirst(word[0], Utf8.Encode(word[1..]));
    assert name + [COLON] + e == LineWith(name, e[0], Utf8.Encode(word[1..]));
    ShortEncodingMissed(first, name, e[0], word[1..], tail);
  }

  /** A framing header that ends at its colon makes the parse panic, whatever follows. */
  lemma {:induction false} BareColonPanics(first: bytes, name: bytes, tail: bytes)
    requires GoodFirst(first) && IsFraming(name) && IsToken(name)
    ensures Parse(first + CRLF + (name + [COLON]) + CRLF + tail).Panicked?
  {
    var l := name + [COLON];
    var b := first + CRLF + l + CRLF + tail;
    BareLine(name);
    FramingByCurrent(KindOf(name), None, NoBody, NoBody);
    OneLineIsClean(l);
    FirstTwoLines(first, l, tail);
    PanicsAfter(b, |first|, |first| + 2 + |l|, l);
  }

  lemma {:induction false} PanicsAfter(b: bytes, first: nat, end: nat, l: bytes)
    requires FindCrlf(b, 0) == Some(first) && ValidFirstLine(b[..first]) && FindCrlf(b, first + 2) == Some(end) && end != first + 2
    requires b[first + 2..end] == l && Unreadable(l) && EndsAtColon(l)
    ensures Parse(b).Panicked?
  {
    ParsePanicsIff(b);
    PanicsOnNext(l, ArrivedLines(b, end + 2));
  }

  /** Where the first line and the line after it end. */
  lemma {:induction false} FirstTwoLines(first: bytes, l: bytes, tail: bytes)
    requires NoCrlf(first) && NoCrlf(l)
    ensures var b := first + CRLF + l + CRLF + tail;
            && FindCrlf(b, 0) == Some(|first|) && b[..|first|] == first
            && FindCrlf(b, |first| + 2) == Some(|first| + 2 + |l|) && b[|first| + 2..|first| + 2 + |l|] == l
  {
    var b := first + CRLF + l + CRLF + tail;
    assert b == [] + first + CRLF + (l + CRLF + tail);
    CrlfAfter([], first, l + CRLF + tail);
    assert b == (first + CRLF) + l + CRLF + tail;
    CrlfAfter(first + CRLF, l, tail);
    assert |first + CRLF| == |first| + 2;
    assert b[..|first|] == first;
    assert b[|first| + 2..|first| + 2 + |l|] == l;
  }

  lemma {:induction false} BareLine(name: bytes)
    requires IsToken(name)
    ensures var l := name + [COLON];
            HasColon(l) && NameOf(l) == name && ValueOf(l) == None && EndsAtColon(l) && OneLineText(l)
  {
    var l := name + [COLON];
    assert l[|name|] == COLON;
    FirstIndexUnique(l, COLON, 0, |name|);
    assert l[..|name|] == name;
  }

  // ----- which header decides the body length

  /** The header settles the body length by itself. */
  predicate Decides(l: bytes)
  {
    HasColon(l) && LineFraming(l, NoBody).Done? && LineFraming(l, NoBody).value != NoBody
  }

  function Decided(l: bytes): (r: ContentLength)
    requires Decides(l)
  {
    LineFraming(l, NoBody).value
  }

  /** What the last header that settles it says. */
  function LastDecided(lines: seq<bytes>): (r: ContentLength)
  {
    if lines == [] then NoBody
    else if Decides(lines[|lines| - 1]) then Decided(lines[|lines| - 1])
    else LastDecided(lines[..|lines| - 1])
  }

  lemma {:induction false} LineFrames(l: bytes, current: ContentLength)
    requires HasColon(l) && LineFraming(l, current).Done?
    ensures LineFraming(l, current) == Done(if Decides(l) then Decided(l) else current)
  {
    FramingByCurrent(KindOf(NameOf(l)), ValueOf(l), current, NoBody);
  }

  /** The same, read from the front. */
  function Settled(lines: seq<bytes>, current: ContentLength): (r: ContentLength)
  {
    if lines == [] then current else Settled(lines[1..], if Decides(lines[0]) then Decided(lines[0]) else current)
  }

  lemma SettledFirst(l: bytes, more: seq<bytes>, current: ContentLength)
    ensures Settled([l] + more, current) == Settled(more, if Decides(l) then Decided(l) else current)
  {
    assert ([l] + more)[1..] == more;
  }

  lemma {:induction false} SettledLast(lines: seq<bytes>, current: ContentLength)
    requires lines != []
    ensures var front, last := lines[..|lines| - 1], lines[|lines| - 1];
            Settled(lines, current) == if Decides(last) then Decided(last) else Settled(front, current)
    decreases |lines|
  {
    if |lines| > 1 {
      SettledLast(lines[1..], if Decides(lines[0]) then Decided(lines[0]) else current);
      var front := lines[..|lines| - 1];
      assert front[1..] == lines[1..][..|lines| - 2];
    }
  }

  lemma {:induction false} SettledIsLastDecided(lines: seq<bytes>)
    ensures Settled(lines, NoBody) == LastDecided(lines)
    decreases |lines|
  {
    if lines != [] {
      SettledLast(lines, NoBody);
      SettledIsLastDecided(lines[..|lines| - 1]);
    }
  }

  lemma {:induction false} LineSettles(b: bytes, pos: nat, end: nat, l: bytes, seen: Seen)
    requires pos < end && end + 2 <= |b| && IsCrlf(b, end) && b[pos..end] == l && ReadLine(b, pos, end, seen).Done?
    ensures ReadLine(b, pos, end, seen).value.contentLength == if Decides(l) then Decided(l) else seen.contentLength
  {
    if HasColon(l) {
      LineReads(b, pos, end, l, seen);
      LineFrames(l, seen.contentLength);
    } else {
      BorrowedColonReads(b, pos, end, seen);
    }
  }

  lemma {:induction false} ParseSettles(b: bytes, pos: nat, firstLineEnd: nat, seen: Seen, block: Block)
    requires pos <= |b| && Lines(b, pos) == Some(block) && ParseFrom(b, pos, firstLineEnd, seen).Done?
    ensures ParseFrom(b, pos, firstLineEnd, seen).value.contentLength == Settled(block.lines, seen.contentLength)
    decreases |b| - pos
  {
    var next, more := FirstAndMore(b, pos, block);
    if next != pos {
      CrlfFound(b, pos);
      ParseFromNext(b, pos, firstLineEnd, seen, next);
      LineSettles(b, pos, next, b[pos..next], seen);
      SettledFirst(b[pos..next], more.lines, seen.contentLength);
      ParseSettles(b, next + 2, firstLineEnd, ReadLine(b, pos, next, seen).value, more);
    }
  }

  /** The body length of a parsed head is what its last readable content length or chunked
      encoding says; every other line leaves it alone, with or without a colon. */
  lemma {:induction false} BodyLengthIsLastDecided(b: bytes, block: Block)
    requires Parse(b).Done?
    requires var first := Parse(b).value.firstLineEnd; first + 2 <= |b| && Lines(b, first + 2) == Some(block)
    ensures Parse(b).value.contentLength == LastDecided(block.lines)
  {
    ParsedShape(b);
    var first := Parse(b).value.firstLineEnd;
    ParseSettles(b, first + 2, first, NOTHING, block);
    SettledIsLastDecided(block.lines);
  }

  predicate SaysChunked(l: bytes) { Decides(l) && Decided(l) == Chunked }

  predicate SaysLength(l: bytes) { Decides(l) && Decided(l).Known? }

  /** None of the lines says so. */
  predicate NoneChunked(lines: seq<bytes>)
  {
    lines == [] || (!SaysChunked(lines[|lines| - 1]) && NoneChunked(lines[..|lines| - 1]))
  }

  predicate NoneLength(lines: seq<bytes>)
  {
    lines == [] || (!SaysLength(lines[|lines| - 1]) && NoneLength(lines[..|lines| - 1]))
  }

  lemma {:induction false} LastDecidedNext(lines: seq<bytes>, last: bytes)
    ensures LastDecided(lines + [last]) == if Decides(last) then Decided(last) else LastDecided(lines)
  {
    assert (lines + [last])[..|lines|] == lines;
  }

  lemma {:induction false} ChunkedStaysIff(before: seq<bytes>, l: bytes, after: seq<bytes>)
    requires SaysChunked(l) && NoneChunked(after)
    ensures LastDecided(before + [l] + after) == Chunked <==> NoneLength(after)
    decreases |after|
  {
    if after == [] {
      assert before + [l] + after == before + [l];
      LastDecidedNext(before, l);
    } else {
      var front, last := after[..|after| - 1], after[|after| - 1];
      assert before + [l] + after == before + [l] + front + [last];
      ChunkedStaysIff(before, l, front);
      LastDecidedNext(before + [l] + front, last);
    }
  }

  /** A chunked encoding overrides a content length, as section 6.3 of RFC 9112 demands,
      exactly when no content length comes after the last one. */
  lemma {:induction false} ChunkedWinsIff(b: bytes, block: Block, before: seq<bytes>, l: bytes, after: seq<bytes>)
    requires Parse(b).Done?
    requires var first := Parse(b).value.firstLineEnd; first + 2 <= |b| && Lines(b, first + 2) == Some(block)
    requires block.lines == before + [l] + after && SaysChunked(l) && NoneChunked(after)
    ensures Parse(b).value.contentLength == Chunked <==> NoneLength(after)
  {
    BodyLengthIsLastDecided(b, block);
    ChunkedStaysIff(before, l, after);
  }

  lemma {:induction false} ParseTwoLines(first: bytes, k: bytes, l: bytes, tail: bytes)
    requires GoodFirst(first) && k != [] && NoCrlf(k) && l != [] && NoCrlf(l) && Decides(k) && Decides(l)
    ensures var r := Parse(Head(first, [k, l]) + tail); r.Done? && r.value.contentLength == Decided(l)
  {
    assert [k, l] == [k] + [l] && [l][1..] == [];
    FoldFirst(k, [l], NoBody);
    LineFrames(k, NoBody);
    FramingByCurrent(KindOf(NameOf(l)), ValueOf(l), Decided(k), NoBody);
    LineFrames(l, Decided(k));
    assert FoldFraming([l], Decided(k)) == Done(Decided(l));
    ParseWritten(first, [k, l], Decided(l), tail);
  }

  /** A head with a chunked encoding and then a content length is framed by the length. */
  lemma {:induction false} LengthAfterChunkedWins(first: bytes, encoding: bytes, word: string, length: bytes, digits: string, tail: bytes)
    requires GoodFirst(first) && Named(encoding, TRANSFER_ENCODING) && IsToken(encoding) && EqIgnoreCase(word, "chunked")
    requires Named(length, CONTENT_LENGTH) && IsToken(length) && digits != [] && AllDigits(digits) && DigitsValue(digits) <= USIZE_MAX
    ensures var r := Parse(Head(first, [HeaderLine(encoding, Utf8.Encode(word)), HeaderLine(length, Utf8.Encode(digits))]) + tail);
            r.Done? && r.value.contentLength == Known(DigitsValue(digits))
  {
    ChunkedLine(encoding, word, NoBody);
    LengthLine(length, digits, NoBody);
    ChunkedIsPlain(word);
    AsciiIsOneLine(word);
    AsciiIsOneLine(digits);
    LineWithIsClean(encoding, SPACE, Utf8.Encode(word));
    LineWithIsClean(length, SPACE, Utf8.Encode(digits));
    ParseTwoLines(first, HeaderLine(encoding, Utf8.Encode(word)), HeaderLine(length, Utf8.Encode(digits)), tail);
  }

  // ----- a colon borrowed from the body

  lemma {:induction false} HeadOfOne(first: bytes, l: bytes, tail: bytes)
    ensures Head(first, [l]) + tail == first + CRLF + l + CRLF + (CRLF + tail)
    ensures Head(first, [l]) + tail == (first + CRLF + l + CRLF) + [] + CRLF + tail
    ensures |Head(first, [l])| == |first| + |l| + 6
  {
    assert Unlines([l]) == l + CRLF by { assert [l][1..] == []; }
  }

  lemma {:induction false} BlankAfterOne(first: bytes, l: bytes, tail: bytes)
    requires NoCrlf(first) && NoCrlf(l)
    ensures var b := Head(first, [l]) + tail;
            && FindCrlf(b, 0) == Some(|first|) && b[..|first|] == first
            && FindCrlf(b, |first| + 2) == Some(|first| + 2 + |l|) && b[|first| + 2..|first| + 2 + |l|] == l
            && FindCrlf(b, |first| + |l| + 4) == Some(|first| + |l| + 4)
  {
    HeadOfOne(first, l, tail);
    FirstTwoLines(first, l, CRLF + tail);
    OneLineIsClean([]);
    CrlfAfter(first + CRLF + l + CRLF, [], tail);
  }

  lemma TailHasColon(b: bytes, head: bytes, tail: bytes, pos: nat)
    requires b == head + tail && pos <= |head| && COLON in tail
    ensures FirstIndex(b, COLON, pos) < |b|
  {
    var i :| 0 <= i < |tail| && tail[i] == COLON;
    assert b[|head| + i] == COLON;
  }

  lemma {:induction false} BlankLineEnds(b: bytes, pos: nat, firstLineEnd: nat, seen: Seen)
    requires pos <= |b| && FindCrlf(b, pos) == Some(pos)
    ensures Lines(b, pos) == Some(Block([], pos + 2))
    ensures var r := ParseFrom(b, pos, firstLineEnd, seen); r.Done? && r.value.end == pos + 2
  {
  }

  lemma {:induction false} BorrowedLineParses(b: bytes, start: nat, end: nat, l: bytes)
    requires start < end && end + 2 <= |b| && FindCrlf(b, start) == Some(end) && b[start..end] == l && !HasColon(l)
    requires FirstIndex(b, COLON, start) < |b| && FindCrlf(b, end + 2) == Some(end + 2) && start >= 2
    ensures var r := ParseFrom(b, start, start - 2, NOTHING); r.Done? && r.value.end == end + 4
    ensures Lines(b, start) == Some(Block([l], end + 4))
  {
    CrlfFound(b, start);
    BorrowedColonReads(b, start, end, NOTHING);
    ParseFromNext(b, start, start - 2, NOTHING, end);
    BlankLineEnds(b, end + 2, start - 2, ReadLine(b, start, end, NOTHING).value);
    LinesFirst(b, start, end, l, Block([], end + 4));
    assert [l] + [] == [l];
  }

  lemma {:induction false} ParsesFrom(b: bytes, first: bytes, h: Headers)
    requires FindCrlf(b, 0) == Some(|first|) && b[..|first|] == first && ValidFirstLine(first)
    requires ParseFrom(b, |first| + 2, |first|, NOTHING) == Done(h)
    ensures Parse(b) == Done(h)
  {
  }

  lemma {:induction false} NotWithoutItsBody(b: bytes, head: bytes, l: bytes)
    requires Parse(b).Done? && Parse(b).value.end == |head| <= |b| && b[..|head|] == head && !HasColon(l)
    requires var first := Parse(b).value.firstLineEnd; first + 2 <= |b| && Lines(b, first + 2) == Some(Block([l], |head|))
    ensures Parse(head) == Incomplete
  {
    HeadIsSelfContained(b);
  }

  lemma {:induction false} LentOn(b: bytes, head: bytes, first: bytes, l: bytes)
    requires head <= b && |head| == |first| + |l| + 6 && l != [] && !HasColon(l) && ValidFirstLine(first)
    requires FindCrlf(b, 0) == Some(|first|) && b[..|first|] == first && FirstIndex(b, COLON, |first| + 2) < |b|
    requires FindCrlf(b, |first| + 2) == Some(|first| + 2 + |l|) && b[|first| + 2..|first| + 2 + |l|] == l
    requires FindCrlf(b, |first| + |l| + 4) == Some(|first| + |l| + 4)
    ensures Parse(b).Done? && Parse(b).value.end == |head| && Parse(head) == Incomplete
  {
    BorrowedLineParses(b, |first| + 2, |first| + 2 + |l|, l);
    ParsesFrom(b, first, ParseFrom(b, |first| + 2, |first|, NOTHING).value);
    ParsedShape(b);
    NotWithoutItsBody(b, head, l);
  }

  /** A head with a line that has no colon parses thanks to a colon in its body, and does
      not parse without it. */
  lemma {:induction false} BodyLendsItsColon(first: bytes, l: bytes, tail: bytes)
    requires GoodFirst(first) && l != [] && NoCrlf(l) && !HasColon(l) && COLON in tail
    ensures var r := Parse(Head(first, [l]) + tail); r.Done? && r.value.end == |Head(first, [l])|
    ensures Parse(Head(first, [l])) == Incomplete
  {
    HeadOfOne(first, l, tail);
    BlankAfterOne(first, l, tail);
    TailHasColon(Head(first, [l]) + tail, Head(first, [l]), tail, |first| + 2);
    LentOn(Head(first, [l]) + tail, Head(first, [l]), first, l);
  }

  // ----- an upgrade that is no word

  lemma UpgradeKind(name: bytes)
    requires Named(name, UPGRADE)
    ensures KindOf(name).UpgradeHeader?
  {
    assert |UPGRADE| == 7 && |HOST| == 4 && |COOKIE| == 6 && |CONTENT_LENGTH| == 14 && |TRANSFER_ENCODING| == 17;
  }

  lemma {:induction false} OneLineValue(l: bytes, kind: HeaderKind)
    requires IsOfKind(l, kind)
    ensures LastValue([l], kind, None) == Some(ValueOf(l))
  {
    assert [l][1..] == [];
  }

  /** The value is a proper beginning of the word websocket, or there is none because the
      line ends at its colon. */
  predicate NoWholeWord(value: Option<bytes>)
  {
    value.None? || (|value.value| < |WEBSOCKET| && SameName(value.value, WEBSOCKET[..|value.value|]))
  }

  predicate StartsWithWord(value: Option<bytes>)
  {
    value.Some? && |WEBSOCKET| <= |value.value| && SameName(value.value[..|WEBSOCKET|], WEBSOCKET)
  }

  /** On every parsed head the upgrade check panics exactly when the last `Upgrade` ends at
      its colon or is a proper beginning of the word websocket, and it says yes exactly when
      that value starts with the word. */
  lemma {:induction false} UpgradePanicsIff(b: bytes, block: Block)
    requires Parse(b).Done?
    requires var first := Parse(b).value.firstLineEnd; first + 2 <= |b| && Lines(b, first + 2) == Some(block)
    ensures Within(Parse(b).value.upgrade, |b|)
    ensures var last := LastValue(block.lines, UpgradeHeader, None);
            var check := IsWebSocket(b, Parse(b).value.upgrade);
            && (check.Panicked? <==> last.Some? && NoWholeWord(last.value))
            && (check == Done(true) <==> last.Some? && StartsWithWord(last.value))
  {
    PositionsAreLastValues(b, UpgradeHeader, block);
    var last := LastValue(block.lines, UpgradeHeader, None);
    if last.Some? && last.value.Some? { CompareExactly(last.value.value, WEBSOCKET); }
  }

  lemma {:induction false} OneUpgradePanics(first: bytes, l: bytes, tail: bytes)
    requires GoodFirst(first) && l != [] && NoCrlf(l) && IsOfKind(l, UpgradeHeader) && NoWholeWord(ValueOf(l))
    ensures var b := Head(first, [l]) + tail;
            Parse(b).Done? && Within(Parse(b).value.upgrade, |b|) && IsWebSocket(b, Parse(b).value.upgrade) == Panicked
  {
    NonFramingLine(l, NoBody);
    ParseOneLine(first, l, NoBody, tail);
    UpgradePanicsIff(Head(first, [l]) + tail, Block([l], |Head(first, [l])|));
    OneLineValue(l, UpgradeHeader);
  }

  /** `Upgrade: web`: the check panics on a head with this line alone. */
  lemma {:induction false} UpgradeBeginningPanics(first: bytes, name: bytes, w: bytes, tail: bytes)
    requires GoodFirst(first) && Named(name, UPGRADE) && IsToken(name)
    requires |w| < |WEBSOCKET| && SameName(w, WEBSOCKET[..|w|]) && OneLineText(w)
    ensures var b := Head(first, [HeaderLine(name, w)]) + tail;
            Parse(b).Done? && Within(Parse(b).value.upgrade, |b|) && IsWebSocket(b, Parse(b).value.upgrade) == Panicked
  {
    WrittenValue(name, w);
    UpgradeKind(name);
    LineWithIsClean(name, SPACE, w);
    OneUpgradePanics(first, HeaderLine(name, w), tail);
  }

  /** `Upgrade:`: the head parses, and the check panics on the value that ends before it
      starts. */
  lemma {:induction false} BareUpgradePanics(first: bytes, name: bytes, tail: bytes)
    requires GoodFirst(first) && Named(name, UPGRADE) && IsToken(name)
    ensures var b := Head(first, [name + [COLON]]) + tail;
            Parse(b).Done? && Within(Parse(b).value.upgrade, |b|) && IsWebSocket(b, Parse(b).value.upgrade) == Panicked
  {
    BareLine(name);
    UpgradeKind(name);
    OneLineIsClean(name + [COLON]);
    OneUpgradePanics(first, name + [COLON], tail);
  }
}
