/** Parsing an HTTP/1.1 head out of a growing buffer (src/h1_utils/http_headers.rs,
    src/h1_utils/http_header.rs and the read loop of src/h1_proxy_server/h1_read_part.rs). */
module HttpHead {
  import opened Prelude
  import opened Text
  import Utf8

  const CR: byte := 13
  const LF: byte := 10
  const COLON: byte := 0x3A
  const CRLF: bytes := [CR, LF]
  const USIZE_MAX := 0xFFFF_FFFF_FFFF_FFFF

  function LowerByte(b: byte): (r: byte) { if 0x41 <= b <= 0x5A then b + 32 else b }

  function Lowered(s: bytes): (r: bytes)
    ensures |r| == |s|
  {
    if s == [] then [] else [LowerByte(s[0])] + Lowered(s[1..])
  }

  /** Equal header names, ignoring ASCII case. */
  predicate SameName(a: bytes, b: bytes) { Lowered(a) == Lowered(b) }

  // The header names the parser looks for, in lower case.

  /** host */
  const HOST: bytes := [0x68, 0x6F, 0x73, 0x74]

  /** cookie */
  const COOKIE: bytes := [0x63, 0x6F, 0x6F, 0x6B, 0x69, 0x65]

  /** content-length */
  const CONTENT_LENGTH: bytes := [0x63, 0x6F, 0x6E, 0x74, 0x65, 0x6E, 0x74, 0x2D, 0x6C, 0x65, 0x6E, 0x67, 0x74, 0x68]

  /** transfer-encoding */
  const TRANSFER_ENCODING: bytes := [0x74, 0x72, 0x61, 0x6E, 0x73, 0x66, 0x65, 0x72, 0x2D, 0x65, 0x6E, 0x63, 0x6F, 0x64, 0x69, 0x6E, 0x67]

  /** upgrade */
  const UPGRADE: bytes := [0x75, 0x70, 0x67, 0x72, 0x61, 0x64, 0x65]

  datatype HeaderKind = HostHeader | CookieHeader | LengthHeader | EncodingHeader | UpgradeHeader | OtherHeader

  /** Which of the headers the parser looks for a name is. */
  function KindOf(name: bytes): (r: HeaderKind)
  {
    var lower := Lowered(name);
    if lower == HOST then HostHeader
    else if lower == COOKIE then CookieHeader
    else if lower == CONTENT_LENGTH then LengthHeader
    else if lower == TRANSFER_ENCODING then EncodingHeader
    else if lower == UPGRADE then UpgradeHeader
    else OtherHeader
  }

  predicate IsCrlf(b: bytes, i: int) { 0 <= i && i + 1 < |b| && b[i] == CR && b[i + 1] == LF }

  /** First CRLF at or after `from`. */
  function FindCrlf(b: bytes, from: nat): (r: Option<nat>)
    requires from <= |b|
    ensures r.Some? ==> from <= r.value && r.value + 2 <= |b|
    decreases |b| - from
  {
    if from == |b| then None
    else if IsCrlf(b, from) then Some(from)
    else FindCrlf(b, from + 1)
  }

  lemma {:induction false} CrlfFound(b: bytes, from: nat)
    requires from <= |b|
    ensures FindCrlf(b, from).Some? ==>
              IsCrlf(b, FindCrlf(b, from).value) && forall i :: from <= i < FindCrlf(b, from).value ==> !IsCrlf(b, i)
    ensures FindCrlf(b, from).None? ==> forall i :: from <= i ==> !IsCrlf(b, i)
    decreases |b| - from
  {
    if from < |b| && !IsCrlf(b, from) { CrlfFound(b, from + 1); }
  }

  datatype ContentLength = NoBody | Known(size: nat) | Chunked

  datatype Position = Position(start: nat, end: nat)

  datatype Headers = Headers(
    firstLineEnd: nat, end: nat, contentLength: ContentLength,
    host: Option<Position>, cookie: Option<Position>, upgrade: Option<Position>)

  /** `Incomplete` is the `None` of the source, for a malformed head as well; an
      out-of-range slice panics. */
  datatype Result<+T> = Done(value: T) | Incomplete | Panicked

  // ----- the first line

  predicate IsValidMethod(m: string)
  {
    m in {"GET", "POST", "PUT", "DELETE", "HEAD", "OPTIONS", "PATCH", "TRACE", "CONNECT", "PRI"}
  }

  predicate IsValidStatus(s: string) { |s| == 3 && AllDigits(s) && 100 <= DigitsValue(s) <= 599 }

  /** The tokens of a request or of a status line. */
  predicate ValidFirstTokens(parts: seq<string>)
  {
    && |parts| >= 2
    && if parts[0] == "HTTP/1.1" then |parts| >= 3 && IsValidStatus(parts[1])
       else |parts| == 3 && parts[2] == "HTTP/1.1" && IsValidMethod(parts[0])
  }

  predicate ValidFirstLine(line: bytes)
  {
    match Utf8.FromUtf8(line)
    case None => false
    case Some(s) => ValidFirstTokens(Tokens(s))
  }

  // ----- header lines

  /** What a header does to the body length: `value` is `None` when the slice that skips
      the byte after the colon is out of range. */
  function Framing(kind: HeaderKind, value: Option<bytes>, current: ContentLength): (r: Result<ContentLength>)
  {
    if !kind.LengthHeader? && !kind.EncodingHeader? then Done(current)
    else if value.None? then Panicked
    else match Utf8.FromUtf8(value.value)
      case None => Incomplete
      case Some(s) =>
        if kind.EncodingHeader? then Done(if EqIgnoreCase(Trim(s), "chunked") then Chunked else current)
        else match ParseUnsigned(Trim(s), USIZE_MAX)
          case None => Incomplete
          case Some(n) => Done(Known(n))
  }

  /** Everything a head has told so far. */
  datatype Seen = Seen(contentLength: ContentLength, host: Option<Position>, cookie: Option<Position>, upgrade: Option<Position>)

  const NOTHING := Seen(NoBody, None, None, None)

  function Note(kind: HeaderKind, value: Option<bytes>, at: Position, seen: Seen): (r: Result<Seen>)
  {
    match Framing(kind, value, seen.contentLength)
    case Incomplete => Incomplete
    case Panicked => Panicked
    case Done(length) =>
      Done(Seen(
             length,
             if kind.HostHeader? then Some(at) else seen.host,
             if kind.CookieHeader? then Some(at) else seen.cookie,
             if kind.UpgradeHeader? then Some(at) else seen.upgrade))
  }

  function ValueSlice(b: bytes, from: nat, end: nat): (r: Option<bytes>)
    requires end <= |b|
  {
    if from <= end then Some(b[from..end]) else None
  }

  /** One header between `start` and `end`; its colon is searched from `start` on, even
      past `end`. */
  function ReadLine(b: bytes, start: nat, end: nat, seen: Seen): (r: Result<Seen>)
    requires start <= end <= |b|
  {
    var separator := FirstIndex(b, COLON, start);
    if separator == |b| then Incomplete else ReadAt(b, start, separator, end, seen)
  }

  function ReadAt(b: bytes, start: nat, separator: nat, end: nat, seen: Seen): (r: Result<Seen>)
    requires start <= end <= |b| && start <= separator < |b|
  {
    Note(KindOf(b[start..separator]), ValueSlice(b, separator + 2, end), Position(separator + 2, end), seen)
  }

  function ParseFrom(b: bytes, pos: nat, firstLineEnd: nat, seen: Seen): (r: Result<Headers>)
    requires pos <= |b|
    decreases |b| - pos
  {
    match FindCrlf(b, pos)
    case None => Incomplete
    case Some(end) =>
      if end == pos then Done(Headers(firstLineEnd, end + 2, seen.contentLength, seen.host, seen.cookie, seen.upgrade))
      else
        match ReadLine(b, pos, end, seen)
        case Incomplete => Incomplete
        case Panicked => Panicked
        case Done(more) => ParseFrom(b, end + 2, firstLineEnd, more)
  }

  function Parse(b: bytes): (r: Result<Headers>)
  {
    match FindCrlf(b, 0)
    case None => Incomplete
    case Some(end) => if ValidFirstLine(b[..end]) then ParseFrom(b, end + 2, end, NOTHING) else Incomplete
  }

  lemma {:induction false} ParseFromNext(b: bytes, pos: nat, firstLineEnd: nat, seen: Seen, end: nat)
    requires pos <= |b| && FindCrlf(b, pos) == Some(end) && end != pos
    ensures ParseFrom(b, pos, firstLineEnd, seen)
         == match ReadLine(b, pos, end, seen)
            case Incomplete => Incomplete
            case Panicked => Panicked
            case Done(more) => ParseFrom(b, end + 2, firstLineEnd, more)
  {
  }

  /** The loop of `Http1Headers::parse`, overwriting what it has seen line by line. */
  method ParseHead(src: bytes) returns (r: Result<Headers>)
    ensures r == Parse(src)
  {
    var firstLineEnd := FindCrlf(src, 0);
    if firstLineEnd.None? { return Incomplete; }
    if !ValidFirstLine(src[..firstLineEnd.value]) { return Incomplete; }
    r := ParseLines(src, firstLineEnd.value);
  }

  method ParseLines(src: bytes, firstLineEnd: nat) returns (r: Result<Headers>)
    requires firstLineEnd + 2 <= |src|
    ensures r == ParseFrom(src, firstLineEnd + 2, firstLineEnd, NOTHING)
  {
    var seen := NOTHING;
    var start := firstLineEnd + 2;
    while true
      invariant start <= |src|
      invariant ParseFrom(src, firstLineEnd + 2, firstLineEnd, NOTHING) == ParseFrom(src, start, firstLineEnd, seen)
      decreases |src| - start
    {
      var end := FindCrlf(src, start);
      if end.None? { return Incomplete; }
      if end.value == start {
        return Done(Headers(firstLineEnd, end.value + 2, seen.contentLength, seen.host, seen.cookie, seen.upgrade));
      }
      ParseFromNext(src, start, firstLineEnd, seen, end.value);
      var line := ReadLine(src, start, end.value, seen);
      if line.Incomplete? { return Incomplete; }
      if line.Panicked? { return Panicked; }
      seen := line.value;
      start := end.value + 2;
    }
  }

  // ----- growing buffers

  lemma {:induction false} FindCrlfGrows(b: bytes, more: bytes, from: nat)
    requires from <= |b| && FindCrlf(b, from).Some?
    ensures FindCrlf(b + more, from) == FindCrlf(b, from)
  {
    var at := FindCrlf(b, from).value;
    CrlfFound(b, from);
    forall i | from <= i < at ensures !IsCrlf(b + more, i) { assert !IsCrlf(b, i); }
    CrlfUnique(b + more, from, at);
  }

  lemma {:induction false} CrlfUnique(b: bytes, from: nat, at: nat)
    requires from <= at && IsCrlf(b, at) && forall i :: from <= i < at ==> !IsCrlf(b, i)
    ensures FindCrlf(b, from) == Some(at)
  {
    CrlfFound(b, from);
    var found := FindCrlf(b, from);
    assert found.Some?;
    assert !(found.value < at) && !(at < found.value);
  }

  lemma {:induction false} SliceGrows(b: bytes, more: bytes, i: nat, j: nat)
    requires j <= |b|
    ensures i <= j ==> (b + more)[i..j] == b[i..j]
    ensures ValueSlice(b + more, i, j) == ValueSlice(b, i, j)
  {
  }

  lemma {:induction false} ReadAtGrows(b: bytes, more: bytes, start: nat, separator: nat, end: nat, seen: Seen)
    requires start <= end <= |b| && start <= separator < |b|
    ensures ReadAt(b + more, start, separator, end, seen) == ReadAt(b, start, separator, end, seen)
  {
    SliceGrows(b, more, start, separator);
    SliceGrows(b, more, separator + 2, end);
  }

  lemma {:induction false} ReadLineGrows(b: bytes, more: bytes, start: nat, end: nat, seen: Seen)
    requires start <= end <= |b| && FirstIndex(b, COLON, start) < |b|
    ensures ReadLine(b + more, start, end, seen) == ReadLine(b, start, end, seen)
  {
    var separator := FirstIndex(b, COLON, start);
    FirstIndexUnique(b + more, COLON, start, separator);
    ReadAtGrows(b, more, start, separator, end, seen);
  }

  lemma {:induction false} ParseFromGrows(b: bytes, more: bytes, pos: nat, firstLineEnd: nat, seen: Seen)
    requires pos <= |b| && !ParseFrom(b, pos, firstLineEnd, seen).Incomplete?
    ensures ParseFrom(b + more, pos, firstLineEnd, seen) == ParseFrom(b, pos, firstLineEnd, seen)
    decreases |b| - pos
  {
    FindCrlfGrows(b, more, pos);
    var end := FindCrlf(b, pos).value;
    if end != pos {
      ReadLineGrows(b, more, pos, end, seen);
      var line := ReadLine(b, pos, end, seen);
      if line.Done? { ParseFromGrows(b, more, end + 2, firstLineEnd, line.value); }
    }
  }

  /** A parse that succeeds, or panics, does the same on every extension of its buffer. */
  lemma {:induction false} ParseIsStable(b: bytes, more: bytes)
    requires !Parse(b).Incomplete?
    ensures Parse(b + more) == Parse(b)
  {
    FindCrlfGrows(b, more, 0);
    var end := FindCrlf(b, 0).value;
    assert (b + more)[..end] == b[..end];
    ParseFromGrows(b, more, end + 2, end, NOTHING);
  }

  lemma {:induction false} ConcatSplit(chunks: seq<bytes>, i: nat)
    requires i <= |chunks|
    ensures Concat(chunks) == Concat(chunks[..i]) + Concat(chunks[i..])
  {
    assert chunks == chunks[..i] + chunks[i..];
    ConcatAppend(chunks[..i], chunks[i..]);
  }

  /** Reading until a head parses: however a stream is cut into reads, the outcome is the
      parse of the whole stream. */
  method ReadHeaders(chunks: seq<bytes>) returns (r: Result<Headers>)
    ensures r == Parse(Concat(chunks))
  {
    var buf: bytes := [];
    var i := 0;
    while true
      invariant i <= |chunks| && buf == Concat(chunks[..i])
      decreases |chunks| - i
    {
      ConcatSplit(chunks, i);
      if |buf| > 0 {
        r := ParseHead(buf);
        if !r.Incomplete? {
          ParseIsStable(buf, Concat(chunks[i..]));
          return;
        }
      }
      if i == |chunks| {
        assert chunks[..i] == chunks;
        return Incomplete;
      }
      assert chunks[..i + 1] == chunks[..i] + [chunks[i]];
      ConcatAppend(chunks[..i], [chunks[i]]);
      assert Concat([chunks[i]]) == chunks[i] by { assert [chunks[i]][1..] == []; }
      buf := buf + chunks[i];
      i := i + 1;
    }
  }

  // ----- where a head ends

  /** The header lines from `pos` up to the blank line, and where the head ends. */
  datatype Block = Block(lines: seq<bytes>, end: nat)

  function Lines(b: bytes, pos: nat): (r: Option<Block>)
    requires pos <= |b|
    ensures r.Some? ==> pos + 2 <= r.value.end <= |b|
    decreases |b| - pos
  {
    match FindCrlf(b, pos)
    case None => None
    case Some(end) =>
      if end == pos then Some(Block([], end + 2))
      else
        match Lines(b, end + 2)
        case None => None
        case Some(more) => Some(Block([b[pos..end]] + more.lines, more.end))
  }

  lemma {:induction false} ParsedLines(b: bytes, pos: nat, firstLineEnd: nat, seen: Seen)
    requires pos <= |b| && ParseFrom(b, pos, firstLineEnd, seen).Done?
    ensures Lines(b, pos).Some?
    ensures Lines(b, pos).value.end == ParseFrom(b, pos, firstLineEnd, seen).value.end
    ensures ParseFrom(b, pos, firstLineEnd, seen).value.firstLineEnd == firstLineEnd
    decreases |b| - pos
  {
    var end := FindCrlf(b, pos).value;
    if end != pos { ParsedLines(b, end + 2, firstLineEnd, ReadLine(b, pos, end, seen).value); }
  }

  predicate BlankLineAt(b: bytes, i: int) { IsCrlf(b, i) && IsCrlf(b, i + 2) }

  lemma {:induction false} LinesEndAtBlankLine(b: bytes, pos: nat)
    requires 2 <= pos <= |b| && IsCrlf(b, pos - 2) && Lines(b, pos).Some?
    ensures BlankLineAt(b, Lines(b, pos).value.end - 4)
    ensures forall i :: pos - 2 <= i < Lines(b, pos).value.end - 4 ==> !BlankLineAt(b, i)
    decreases |b| - pos
  {
    var end := FindCrlf(b, pos).value;
    CrlfFound(b, pos);
    if end != pos {
      LinesEndAtBlankLine(b, end + 2);
      forall i | pos - 2 <= i < end ensures !BlankLineAt(b, i) {
        if i == pos - 2 { assert !IsCrlf(b, pos); }
        if i == pos - 1 { assert b[pos - 1] == LF; }
        if pos <= i { assert !IsCrlf(b, i); }
      }
    }
  }

  /** A parsed head ends just past the first blank line of the buffer. */
  lemma {:induction false} HeadEndsAtFirstBlankLine(b: bytes)
    requires Parse(b).Done?
    ensures BlankLineAt(b, Parse(b).value.end - 4)
    ensures forall i :: 0 <= i < Parse(b).value.end - 4 ==> !BlankLineAt(b, i)
  {
    var first := FindCrlf(b, 0).value;
    CrlfFound(b, 0);
    ParsedLines(b, first + 2, first, NOTHING);
    LinesEndAtBlankLine(b, first + 2);
    forall i | 0 <= i < first ensures !BlankLineAt(b, i) { assert !IsCrlf(b, i); }
  }

  // ----- when a head needs no byte of its body

  /** Every header still to come finds its colon before the head is over. */
  ghost predicate ColonsWithin(b: bytes, pos: nat, end: nat)
    requires pos <= |b|
    decreases |b| - pos
  {
    match FindCrlf(b, pos)
    case None => true
    case Some(e) => e == pos || (FirstIndex(b, COLON, pos) < end && ColonsWithin(b, e + 2, end))
  }

  lemma {:induction false} CrlfBefore(b: bytes, pos: nat, cut: nat)
    requires pos <= cut <= |b| && FindCrlf(b, pos).Some? && FindCrlf(b, pos).value + 2 <= cut
    ensures FindCrlf(b[..cut], pos) == FindCrlf(b, pos)
  {
    var at := FindCrlf(b, pos).value;
    CrlfFound(b, pos);
    forall i | pos <= i < at ensures !IsCrlf(b[..cut], i) { assert !IsCrlf(b, i); }
    CrlfUnique(b[..cut], pos, at);
  }

  lemma {:induction false} CutLine(b: bytes, start: nat, end: nat, seen: Seen, cut: nat)
    requires start <= end <= cut <= |b|
    ensures ReadLine(b[..cut], start, end, seen)
         == if FirstIndex(b, COLON, start) < cut then ReadLine(b, start, end, seen) else Incomplete
  {
    var c, separator := b[..cut], FirstIndex(b, COLON, start);
    if separator < cut {
      FirstIndexUnique(c, COLON, start, separator);
      ReadLineGrows(c, b[cut..], start, end, seen);
      assert c + b[cut..] == b;
    } else {
      FirstIndexAbsent(c, COLON, start);
    }
  }

  lemma {:induction false} CutNext(b: bytes, pos: nat, firstLineEnd: nat, seen: Seen, cut: nat, end: nat, after: Seen)
    requires pos <= |b| && FindCrlf(b, pos) == Some(end) && end != pos && end + 2 <= cut <= |b| && ReadLine(b, pos, end, seen) == Done(after)
    requires FirstIndex(b, COLON, pos) < cut ==>
               ParseFrom(b[..cut], end + 2, firstLineEnd, after)
               == if ColonsWithin(b, end + 2, cut) then ParseFrom(b, end + 2, firstLineEnd, after) else Incomplete
    ensures ParseFrom(b[..cut], pos, firstLineEnd, seen)
         == if FirstIndex(b, COLON, pos) < cut && ColonsWithin(b, end + 2, cut) then ParseFrom(b, pos, firstLineEnd, seen) else Incomplete
  {
    CrlfBefore(b, pos, cut);
    CutLine(b, pos, end, seen, cut);
    ParseFromNext(b, pos, firstLineEnd, seen, end);
    ParseFromNext(b[..cut], pos, firstLineEnd, seen, end);
  }

  lemma {:induction false} CutEnd(b: bytes, pos: nat, firstLineEnd: nat, seen: Seen, cut: nat)
    requires pos + 2 == cut <= |b| && FindCrlf(b, pos) == Some(pos)
    ensures ParseFrom(b[..cut], pos, firstLineEnd, seen) == ParseFrom(b, pos, firstLineEnd, seen)
  {
    CrlfBefore(b, pos, cut);
  }

  lemma {:induction false} CutShape(b: bytes, pos: nat, cut: nat) returns (end: nat)
    requires pos <= |b| && Lines(b, pos).Some? && Lines(b, pos).value.end == cut
    ensures FindCrlf(b, pos) == Some(end) && end + 2 <= cut <= |b|
    ensures end == pos ==> cut == pos + 2 && ColonsWithin(b, pos, cut)
    ensures end != pos ==> pos < end && Lines(b, end + 2).Some? && Lines(b, end + 2).value.end == cut
    ensures end != pos ==> (ColonsWithin(b, pos, cut) <==> FirstIndex(b, COLON, pos) < cut && ColonsWithin(b, end + 2, cut))
  {
    end := FindCrlf(b, pos).value;
  }

  lemma {:induction false} CutParse(b: bytes, pos: nat, firstLineEnd: nat, seen: Seen, cut: nat)
    requires pos <= |b| && ParseFrom(b, pos, firstLineEnd, seen).Done?
    requires Lines(b, pos).Some? && Lines(b, pos).value.end == cut
    ensures pos <= cut <= |b|
    ensures ParseFrom(b[..cut], pos, firstLineEnd, seen)
         == if ColonsWithin(b, pos, cut) then ParseFrom(b, pos, firstLineEnd, seen) else Incomplete
    decreases |b| - pos
  {
    var end := CutShape(b, pos, cut);
    if end == pos {
      CutEnd(b, pos, firstLineEnd, seen, cut);
    } else {
      ParseFromNext(b, pos, firstLineEnd, seen, end);
      var after := ReadLine(b, pos, end, seen).value;
      if FirstIndex(b, COLON, pos) < cut { CutParse(b, end + 2, firstLineEnd, after, cut); }
      CutNext(b, pos, firstLineEnd, seen, cut, end, after);
    }
  }

  /** The last header line, when there is one, has a colon of its own. */
  ghost predicate LastLineHasColon(lines: seq<bytes>) { lines != [] ==> COLON in lines[|lines| - 1] }

  lemma {:induction false} NoColonAfterLast(b: bytes, pos: nat)
    requires pos <= |b| && Lines(b, pos).Some?
    ensures var block := Lines(b, pos).value;
            ColonsWithin(b, pos, block.end) <==> LastLineHasColon(block.lines)
    decreases |b| - pos
  {
    var end := FindCrlf(b, pos).value;
    if end != pos {
      var block, rest := Lines(b, pos).value, Lines(b, end + 2).value;
      NoColonAfterLast(b, end + 2);
      var c := FirstIndex(b, COLON, pos);
      CrlfFound(b, pos);
      CrlfFound(b, end + 2);
      if rest.lines == [] {
        assert block.lines == [b[pos..end]] && block.end == end + 4;
        OwnColon(b, pos, end);
      } else {
        assert block.lines[|block.lines| - 1] == rest.lines[|rest.lines| - 1];
        if LastLineHasColon(rest.lines) { ColonOfRest(b, end + 2, block.end); }
      }
    }
  }

  lemma {:induction false} OwnColon(b: bytes, pos: nat, end: nat)
    requires pos <= end && IsCrlf(b, end) && IsCrlf(b, end + 2)
    ensures FirstIndex(b, COLON, pos) < end + 4 <==> COLON in b[pos..end]
  {
    var c := FirstIndex(b, COLON, pos);
    if c < end { assert b[pos..end][c - pos] == COLON; }
    if COLON in b[pos..end] {
      var k :| 0 <= k < end - pos && b[pos..end][k] == COLON;
      assert b[pos + k] == COLON;
    }
  }

  lemma {:induction false} ColonOfRest(b: bytes, pos: nat, end: nat)
    requires pos <= |b| && FindCrlf(b, pos).Some? && FindCrlf(b, pos).value != pos && ColonsWithin(b, pos, end)
    ensures forall from :: 0 <= from <= pos ==> FirstIndex(b, COLON, from) < end
  {
    var c := FirstIndex(b, COLON, pos);
    forall from | 0 <= from <= pos ensures FirstIndex(b, COLON, from) < end {
      if c < |b| { assert b[c] == COLON && FirstIndex(b, COLON, from) <= c; }
    }
  }

  lemma {:induction false} FirstLineOfCut(b: bytes, cut: nat)
    requires FindCrlf(b, 0).Some? && FindCrlf(b, 0).value + 2 <= cut <= |b| && ValidFirstLine(b[..FindCrlf(b, 0).value])
    ensures var first := FindCrlf(b, 0).value;
            Parse(b[..cut]) == ParseFrom(b[..cut], first + 2, first, NOTHING)
  {
    CrlfBefore(b, 0, cut);
    assert b[..cut][..FindCrlf(b, 0).value] == b[..FindCrlf(b, 0).value];
  }

  lemma {:induction false} ParsedShape(b: bytes)
    requires Parse(b).Done?
    ensures var first := FindCrlf(b, 0).value;
            var h := Parse(b).value;
            && FindCrlf(b, 0).Some? && h.firstLineEnd == first && ValidFirstLine(b[..first])
            && Parse(b) == ParseFrom(b, first + 2, first, NOTHING)
            && Lines(b, first + 2).Some? && Lines(b, first + 2).value.end == h.end && first + 2 <= h.end <= |b|
  {
    var first := FindCrlf(b, 0).value;
    ParsedLines(b, first + 2, first, NOTHING);
  }

  /** A head that parses also parses without any byte of its body exactly when its last
      header line has a colon of its own. */
  lemma {:induction false} HeadIsSelfContained(b: bytes)
    requires Parse(b).Done?
    ensures var h := Parse(b).value;
            h.firstLineEnd + 2 <= h.end <= |b| && Lines(b, h.firstLineEnd + 2).Some?
            && Parse(b[..h.end]) == if LastLineHasColon(Lines(b, h.firstLineEnd + 2).value.lines) then Parse(b) else Incomplete
  {
    ParsedShape(b);
    var h := Parse(b).value;
    FirstLineOfCut(b, h.end);
    CutParse(b, h.firstLineEnd + 2, h.firstLineEnd, NOTHING, h.end);
    NoColonAfterLast(b, h.firstLineEnd + 2);
  }

  // ----- positions

  predicate Within(p: Option<Position>, n: nat) { p.Some? ==> p.value.end <= n }

  lemma {:induction false} PositionsWithin(b: bytes, pos: nat, firstLineEnd: nat, seen: Seen)
    requires pos <= |b| && ParseFrom(b, pos, firstLineEnd, seen).Done?
    requires Within(seen.host, |b|) && Within(seen.cookie, |b|) && Within(seen.upgrade, |b|)
    ensures var h := ParseFrom(b, pos, firstLineEnd, seen).value;
            Within(h.host, |b|) && Within(h.cookie, |b|) && Within(h.upgrade, |b|)
    decreases |b| - pos
  {
    var end := FindCrlf(b, pos).value;
    if end != pos { PositionsWithin(b, end + 2, firstLineEnd, ReadLine(b, pos, end, seen).value); }
  }
}
