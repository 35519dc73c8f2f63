/** What a parsed head says and what a rewritten one lets through, header by header. */
module HeadMeaning {
  import opened Prelude
  import opened Text
  import opened HttpHead
  import opened HeadRewrite
  import opened Reparse
  import Utf8

  // ----- the body length

  lemma NoSpaceNoTrim(s: string)
    requires forall i :: 0 <= i < |s| ==> !IsSpace(s[i])
    ensures Trim(s) == s
  {
  }

  /** The value of a written header line. */
  lemma {:induction false} WrittenValue(name: bytes, value: bytes)
    requires COLON !in name
    ensures var l := HeaderLine(name, value);
            HasColon(l) && NameOf(l) == name && ValueSlice(l, FirstIndex(l, COLON, 0) + 2, |l|) == Some(value)
  {
    var l := HeaderLine(name, value);
    NameOfHeader(name, value);
    FirstIndexUnique(l, COLON, 0, |name|);
    assert l[|name| + 2..|l|] == value;
  }

  lemma LengthKind(name: bytes)
    requires Named(name, CONTENT_LENGTH)
    ensures KindOf(name).LengthHeader?
  {
    assert |CONTENT_LENGTH| == 14 && |HOST| == 4 && |COOKIE| == 6;
  }

  lemma EncodingKind(name: bytes)
    requires Named(name, TRANSFER_ENCODING)
    ensures KindOf(name).EncodingHeader?
  {
    assert |TRANSFER_ENCODING| == 17 && |HOST| == 4 && |COOKIE| == 6 && |CONTENT_LENGTH| == 14;
  }

  /** A content length in digits is the body length, whatever was said before. */
  lemma {:induction false} LengthLine(name: bytes, digits: string, current: ContentLength)
    requires Named(name, CONTENT_LENGTH) && COLON !in name
    requires digits != [] && AllDigits(digits) && DigitsValue(digits) <= USIZE_MAX
    ensures HasColon(HeaderLine(name, Utf8.Encode(digits)))
    ensures LineFraming(HeaderLine(name, Utf8.Encode(digits)), current) == Done(Known(DigitsValue(digits)))
  {
    WrittenValue(name, Utf8.Encode(digits));
    LengthKind(name);
    DigitsFrame(digits, current);
  }

  lemma {:induction false} DigitsFrame(digits: string, current: ContentLength)
    requires digits != [] && AllDigits(digits) && DigitsValue(digits) <= USIZE_MAX
    ensures Framing(LengthHeader, Some(Utf8.Encode(digits)), current) == Done(Known(DigitsValue(digits)))
  {
    Utf8.DecodeUndoesEncode(digits);
    NoSpaceNoTrim(digits);
    assert digits[0] != '+';
  }

  /** The word chunked, in any case, makes the body chunked, whatever was said before. */
  lemma {:induction false} ChunkedLine(name: bytes, word: string, current: ContentLength)
    requires Named(name, TRANSFER_ENCODING) && COLON !in name && EqIgnoreCase(word, "chunked")
    ensures HasColon(HeaderLine(name, Utf8.Encode(word)))
    ensures LineFraming(HeaderLine(name, Utf8.Encode(word)), current) == Done(Chunked)
  {
    WrittenValue(name, Utf8.Encode(word));
    EncodingKind(name);
    Utf8.DecodeUndoesEncode(word);
    ChunkedHasNoSpace(word);
    NoSpaceNoTrim(word);
  }

  lemma ChunkedHasNoSpace(word: string)
    requires EqIgnoreCase(word, "chunked")
    ensures forall i :: 0 <= i < |word| ==> !IsSpace(word[i])
  {
    assert forall i :: 0 <= i < |word| ==> Lower(word[i]) == Lower("chunked"[i]);
  }

  // ----- the recorded positions

  function ValueOf(l: bytes): (r: Option<bytes>)
  {
    ValueSlice(l, FirstIndex(l, COLON, 0) + 2, |l|)
  }

  predicate IsOfKind(l: bytes, kind: HeaderKind) { HasColon(l) && KindOf(NameOf(l)) == kind }

  /** The value of the last header of a kind. */
  function LastValue(lines: seq<bytes>, kind: HeaderKind, current: Option<Option<bytes>>): (r: Option<Option<bytes>>)
  {
    if lines == [] then current
    else LastValue(lines[1..], kind, if IsOfKind(lines[0], kind) then Some(ValueOf(lines[0])) else current)
  }

  /** What a head records for a kind of header. */
  function Slot(seen: Seen, kind: HeaderKind): (r: Option<Position>)
  {
    match kind
    case HostHeader => seen.host
    case CookieHeader => seen.cookie
    case UpgradeHeader => seen.upgrade
    case _ => None
  }

  predicate Recorded(kind: HeaderKind) { kind.HostHeader? || kind.CookieHeader? || kind.UpgradeHeader? }

  /** The bytes at a recorded position; none when the position is not in the buffer. */
  function TextAt(b: bytes, p: Option<Position>): (r: Option<Option<bytes>>)
  {
    if p.None? then None
    else if p.value.end <= |b| then Some(ValueSlice(b, p.value.start, p.value.end))
    else Some(None)
  }

  function SeenIn(h: Headers): (r: Seen) { Seen(h.contentLength, h.host, h.cookie, h.upgrade) }

  lemma {:induction false} ValueOfLine(b: bytes, pos: nat, end: nat, l: bytes)
    requires pos <= end <= |b| && b[pos..end] == l && HasColon(l)
    ensures ValueSlice(b, pos + FirstIndex(l, COLON, 0) + 2, end) == ValueOf(l)
  {
    SliceOfLine(b, pos, end, FirstIndex(l, COLON, 0) + 2);
  }

  lemma NoteRecords(noted: HeaderKind, value: Option<bytes>, at: Position, seen: Seen, kind: HeaderKind)
    requires Note(noted, value, at, seen).Done? && Recorded(kind)
    ensures Slot(Note(noted, value, at, seen).value, kind) == if noted == kind then Some(at) else Slot(seen, kind)
  {
  }

  lemma {:induction false} NotedText(b: bytes, noted: HeaderKind, value: Option<bytes>, at: Position, seen: Seen, kind: HeaderKind, after: Seen)
    requires Note(noted, value, at, seen) == Done(after) && Recorded(kind) && at.end <= |b| && ValueSlice(b, at.start, at.end) == value
    ensures TextAt(b, Slot(after, kind)) == if noted == kind then Some(value) else TextAt(b, Slot(seen, kind))
  {
    NoteRecords(noted, value, at, seen, kind);
  }

  lemma {:induction false} LoweredAt(s: bytes, i: nat)
    requires i < |s|
    ensures Lowered(s)[i] == LowerByte(s[i])
  {
    if i > 0 {
      LoweredAt(s[1..], i - 1);
      LoweredFirst(s);
    }
  }

  lemma NoKnownNameHasCr(i: nat)
    ensures i < |HOST| ==> HOST[i] != CR
    ensures i < |COOKIE| ==> COOKIE[i] != CR
    ensures i < |CONTENT_LENGTH| ==> CONTENT_LENGTH[i] != CR
    ensures i < |TRANSFER_ENCODING| ==> TRANSFER_ENCODING[i] != CR
    ensures i < |UPGRADE| ==> UPGRADE[i] != CR
  {
  }

  lemma {:induction false} NameAcrossLines(name: bytes, i: nat)
    requires i < |name| && name[i] == CR
    ensures KindOf(name) == OtherHeader
  {
    LoweredAt(name, i);
    NoKnownNameHasCr(i);
  }

  /** A line without a colon borrows one from what comes after it, and then tells nothing. */
  lemma {:induction false} BorrowedColonReads(b: bytes, pos: nat, end: nat, seen: Seen)
    requires pos < end && end + 2 <= |b| && IsCrlf(b, end) && !HasColon(b[pos..end])
    ensures ReadLine(b, pos, end, seen) == if FirstIndex(b, COLON, pos) == |b| then Incomplete else Done(seen)
  {
    var c := FirstIndex(b, COLON, pos);
    if c < |b| {
      ColonBeyond(b, pos, end, c);
      NameAcrossLines(b[pos..c], end - pos);
    }
  }

  lemma ColonBeyond(b: bytes, pos: nat, end: nat, c: nat)
    requires pos < end < |b| && b[end] == CR && !HasColon(b[pos..end]) && pos <= c < |b| && b[c] == COLON
    ensures end < c && b[pos..c][end - pos] == CR
  {
  }

  lemma {:induction false} OwnColonRecords(b: bytes, pos: nat, end: nat, l: bytes, seen: Seen, kind: HeaderKind, after: Seen)
    requires pos <= end <= |b| && b[pos..end] == l && HasColon(l) && Recorded(kind) && ReadLine(b, pos, end, seen) == Done(after)
    ensures TextAt(b, Slot(after, kind)) == if KindOf(NameOf(l)) == kind then Some(ValueOf(l)) else TextAt(b, Slot(seen, kind))
  {
    var noted, at := KindOf(NameOf(l)), Position(pos + FirstIndex(l, COLON, 0) + 2, end);
    assert Note(noted, ValueOf(l), at, seen) == Done(after) by { LineIsNote(b, pos, end, l, seen); }
    assert ValueSlice(b, at.start, at.end) == ValueOf(l) by { ValueOfLine(b, pos, end, l); }
    NotedText(b, noted, ValueOf(l), at, seen, kind, after);
  }

  lemma {:induction false} LineRecords(b: bytes, pos: nat, end: nat, l: bytes, seen: Seen, kind: HeaderKind, after: Seen)
    requires pos < end && end + 2 <= |b| && IsCrlf(b, end) && b[pos..end] == l && Recorded(kind)
    requires ReadLine(b, pos, end, seen) == Done(after)
    ensures TextAt(b, Slot(after, kind)) == if IsOfKind(l, kind) then Some(ValueOf(l)) else TextAt(b, Slot(seen, kind))
  {
    if HasColon(l) {
      OwnColonRecords(b, pos, end, l, seen, kind, after);
    } else {
      BorrowedColonReads(b, pos, end, seen);
    }
  }

  lemma LastValueFirst(l: bytes, more: seq<bytes>, kind: HeaderKind, current: Option<Option<bytes>>)
    ensures LastValue([l] + more, kind, current) == LastValue(more, kind, if IsOfKind(l, kind) then Some(ValueOf(l)) else current)
  {
    assert ([l] + more)[1..] == more;
  }

  lemma {:induction false} NextRecords(b: bytes, pos: nat, firstLineEnd: nat, seen: Seen, kind: HeaderKind, next: nat, more: seq<bytes>)
    requires pos <= |b| && FindCrlf(b, pos) == Some(next) && next != pos && Recorded(kind)
    requires ParseFrom(b, pos, firstLineEnd, seen).Done?
    ensures var line := ReadLine(b, pos, next, seen);
            && line.Done? && ParseFrom(b, pos, firstLineEnd, seen) == ParseFrom(b, next + 2, firstLineEnd, line.value)
            && LastValue([b[pos..next]] + more, kind, TextAt(b, Slot(seen, kind)))
               == LastValue(more, kind, TextAt(b, Slot(line.value, kind)))
  {
    CrlfFound(b, pos);
    ParseFromNext(b, pos, firstLineEnd, seen, next);
    LineRecords(b, pos, next, b[pos..next], seen, kind, ReadLine(b, pos, next, seen).value);
    LastValueFirst(b[pos..next], more, kind, TextAt(b, Slot(seen, kind)));
  }

  lemma {:induction false} ParseRecords(b: bytes, pos: nat, firstLineEnd: nat, seen: Seen, kind: HeaderKind, block: Block)
    requires pos <= |b| && Lines(b, pos) == Some(block) && Recorded(kind)
    requires ParseFrom(b, pos, firstLineEnd, seen).Done?
    ensures TextAt(b, Slot(SeenIn(ParseFrom(b, pos, firstLineEnd, seen).value), kind))
         == LastValue(block.lines, kind, TextAt(b, Slot(seen, kind)))
    decreases |b| - pos
  {
    var next, more := FirstAndMore(b, pos, block);
    if next != pos {
      NextRecords(b, pos, firstLineEnd, seen, kind, next, more.lines);
      ParseRecords(b, next + 2, firstLineEnd, ReadLine(b, pos, next, seen).value, kind, more);
    } else {
      EndRecords(b, pos, firstLineEnd, seen, kind);
    }
  }

  lemma {:induction false} EndRecords(b: bytes, pos: nat, firstLineEnd: nat, seen: Seen, kind: HeaderKind)
    requires pos <= |b| && FindCrlf(b, pos) == Some(pos) && Recorded(kind)
    ensures var r := ParseFrom(b, pos, firstLineEnd, seen); r.Done? && Slot(SeenIn(r.value), kind) == Slot(seen, kind)
  {
  }

  /** The recorded host, cookie and upgrade of a head are the values of the last header with
      that name. */
  lemma {:induction false} PositionsAreLastValues(b: bytes, kind: HeaderKind, block: Block)
    requires Parse(b).Done? && Recorded(kind)
    requires var first := Parse(b).value.firstLineEnd; first + 2 <= |b| && Lines(b, first + 2) == Some(block)
    ensures Within(Slot(SeenIn(Parse(b).value), kind), |b|)
    ensures TextAt(b, Slot(SeenIn(Parse(b).value), kind)) == LastValue(block.lines, kind, None)
  {
    ParsedShape(b);
    var first := Parse(b).value.firstLineEnd;
    ParseRecords(b, first + 2, first, NOTHING, kind, block);
    PositionsWithin(b, first + 2, first, NOTHING);
  }

  // ----- what passes

  /** A header line no rule of the rewriting is about. */
  predicate Untouched(cfg: Config, l: bytes)
  {
    && !Dropped(cfg, NameOf(l)) && !Named(NameOf(l), LOWER_X_FORWARDED_FOR)
    && !(cfg.InjectsCountry() && Named(NameOf(l), LOWER_CF_IPCOUNTRY))
  }

  lemma {:induction false} RewrittenAppend(cfg: Config, a: seq<bytes>, b: seq<bytes>)
    ensures Rewritten(cfg, a + b) == Rewritten(cfg, a) + Rewritten(cfg, b)
  {
    if a == [] {
      assert a + b == b;
    } else {
      assert (a + b)[1..] == a[1..] + b;
      RewrittenAppend(cfg, a[1..], b);
      Associates(RewriteLine(cfg, a[0]), Rewritten(cfg, a[1..]), Rewritten(cfg, b));
    }
  }

  /** An untouched line passes byte for byte, in its place among the others. */
  lemma {:induction false} UntouchedPasses(cfg: Config, before: seq<bytes>, l: bytes, after: seq<bytes>)
    requires Untouched(cfg, l)
    ensures Rewritten(cfg, before + ([l] + after)) == Rewritten(cfg, before) + ([l] + Rewritten(cfg, after))
  {
    RewrittenAppend(cfg, before, [l] + after);
    RewrittenAppend(cfg, [l], after);
    assert Rewritten(cfg, [l]) == [l] by { assert [l][1..] == []; }
  }

  lemma DroppedIgnoresCase(cfg: Config, a: bytes, b: bytes)
    requires Lowered(a) == Lowered(b)
    ensures Dropped(cfg, a) <==> Dropped(cfg, b)
  {
  }

  lemma ForwardedLowered(i: nat)
    requires i < 15
    ensures |X_FORWARDED_FOR| == 15 && |LOWER_X_FORWARDED_FOR| == 15 && LowerByte(X_FORWARDED_FOR[i]) == LOWER_X_FORWARDED_FOR[i]
  {
  }

  lemma {:induction false} ForwardedIsNamed()
    ensures Lowered(X_FORWARDED_FOR) == LOWER_X_FORWARDED_FOR
  {
    var a, b := X_FORWARDED_FOR, LOWER_X_FORWARDED_FOR;
    ForwardedLowered(0);
    forall i | 0 <= i < |a| ensures LowerByte(a[i]) == b[i] { ForwardedLowered(i); }
    LowerForwarded(a, b);
  }

  lemma {:induction false} LowerForwarded(a: bytes, b: bytes)
    requires |a| == |b| && forall i :: 0 <= i < |a| ==> LowerByte(a[i]) == b[i]
    ensures Lowered(a) == b
  {
    if a != [] {
      LowerForwarded(a[1..], b[1..]);
      assert b == [b[0]] + b[1..];
    }
  }

  ghost predicate NoneDropped(cfg: Config, lines: seq<bytes>)
  {
    forall k :: 0 <= k < |lines| ==> !Dropped(cfg, NameOf(lines[k]))
  }

  lemma {:induction false} LineNotDropped(cfg: Config, l: bytes)
    ensures NoneDropped(cfg, RewriteLine(cfg, l))
  {
    if cfg.ClientIp().Some? && Named(NameOf(l), LOWER_X_FORWARDED_FOR) {
      ForwardedName();
      ForwardedIsNamed();
      NameOfHeader(X_FORWARDED_FOR, ForwardedValue(l) + [COMMA] + cfg.ClientIp().value);
      DroppedIgnoresCase(cfg, X_FORWARDED_FOR, NameOf(l));
    }
  }

  lemma NoneDroppedAppend(cfg: Config, a: seq<bytes>, b: seq<bytes>)
    requires NoneDropped(cfg, a) && NoneDropped(cfg, b)
    ensures NoneDropped(cfg, a + b)
  {
  }

  /** No line passes under a name that is to be removed. */
  lemma {:induction false} RemovedNeverPasses(cfg: Config, lines: seq<bytes>)
    ensures NoneDropped(cfg, Rewritten(cfg, lines))
  {
    if lines != [] {
      RemovedNeverPasses(cfg, lines[1..]);
      LineNotDropped(cfg, lines[0]);
      NoneDroppedAppend(cfg, RewriteLine(cfg, lines[0]), Rewritten(cfg, lines[1..]));
    }
  }

  /** authorization */
  const AUTHORIZATION: bytes := [0x61, 0x75, 0x74, 0x68, 0x6F, 0x72, 0x69, 0x7A, 0x61, 0x74, 0x69, 0x6F, 0x6E]

  /** No line has this name, ignoring case. */
  ghost predicate NoneNamed(lines: seq<bytes>, lower: bytes)
  {
    forall k :: 0 <= k < |lines| ==> !Named(NameOf(lines[k]), lower)
  }

  lemma {:induction false} WrittenHasOtherName(name: bytes, value: bytes, lower: bytes)
    requires COLON !in name && |name| != |lower|
    ensures NoneNamed([HeaderLine(name, value)], lower)
  {
    NameOfHeader(name, value);
  }

  lemma {:induction false} OwnLinesAreNotAuthorization(cfg: Config, written: bool)
    ensures NoneNamed(ForwardedLine(cfg, written), AUTHORIZATION) && NoneNamed(CountryLine(cfg), AUTHORIZATION)
    ensures NoneNamed(HostLine(cfg), AUTHORIZATION) && NoneNamed(ConnectionLine(cfg), AUTHORIZATION) && NoneNamed(HstsLine(cfg), AUTHORIZATION)
  {
    ForwardedName();
    CountryName();
    HostName();
    ConnectionName();
    HstsName();
    assert |AUTHORIZATION| == 13;
    if cfg.ClientIp().Some? { WrittenHasOtherName(X_FORWARDED_FOR, cfg.ClientIp().value, AUTHORIZATION); }
    if cfg.side.Request? && cfg.side.country.Some? { WrittenHasOtherName(CF_IPCOUNTRY, cfg.side.country.value, AUTHORIZATION); }
    if cfg.hostOverride.Some? { WrittenHasOtherName(HOST_NAME, cfg.hostOverride.value, AUTHORIZATION); }
    WrittenHasOtherName(CONNECTION, CLOSE, AUTHORIZATION);
    WrittenHasOtherName(HSTS, HSTS_VALUE, AUTHORIZATION);
  }

  /** The names an endpoint removes from requests: those of its settings, and the
      authorization header when the endpoint is behind the oauth gate. */
  function EndpointRemoves(configured: seq<bytes>, oauth: bool): (r: seq<bytes>)
  {
    if oauth then configured + [AUTHORIZATION] else configured
  }

  lemma {:induction false} OAuthRemoves(configured: seq<bytes>)
    ensures var remove := EndpointRemoves(configured, true); exists i :: 0 <= i < |remove| && Named(remove[i], AUTHORIZATION)
  {
    AuthorizationIsLower();
    assert EndpointRemoves(configured, true)[|configured|] == AUTHORIZATION;
  }

  lemma {:induction false} AuthorizationIsLower()
    ensures Named(AUTHORIZATION, AUTHORIZATION)
  {
    var a := AUTHORIZATION;
    forall i | 0 <= i < |a| ensures LowerByte(a[i]) == a[i] { AuthorizationByte(i); }
    LowerForwarded(a, a);
  }

  lemma AuthorizationByte(i: nat)
    requires i < |AUTHORIZATION|
    ensures AUTHORIZATION[i] >= 0x61
  {
  }

  /** Lines named like this are all among `allowed`. */
  ghost predicate NamedOnly(lines: seq<bytes>, lower: bytes, allowed: seq<bytes>)
  {
    forall k :: 0 <= k < |lines| && Named(NameOf(lines[k]), lower) ==> lines[k] in allowed
  }

  lemma NamedOnlyAppend(a: seq<bytes>, b: seq<bytes>, lower: bytes, allowed: seq<bytes>)
    requires NamedOnly(a, lower, allowed) && NamedOnly(b, lower, allowed)
    ensures NamedOnly(a + b, lower, allowed)
  {
  }

  lemma NoneNamedIsNamedOnly(a: seq<bytes>, lower: bytes, allowed: seq<bytes>)
    requires NoneNamed(a, lower)
    ensures NamedOnly(a, lower, allowed)
  {
  }

  /** Behind the oauth gate the client's token stays here: whatever the client sends and
      whatever is configured, a header of the output whose name before the colon is
      authorization, in any case, is one the settings themselves add. */
  lemma {:induction false} TokenStaysHere(cfg: Config, configured: seq<bytes>, lines: seq<bytes>)
    requires cfg.remove == EndpointRemoves(configured, true)
    ensures NamedOnly(OutLines(cfg, lines), AUTHORIZATION, AddedLines(cfg.added))
  {
    var written, added := AnyForwarded(cfg, lines), AddedLines(cfg.added);
    OAuthRemoves(configured);
    KeptAreNot(cfg, lines);
    NoneNamedIsNamedOnly(Rewritten(cfg, lines), AUTHORIZATION, added);
    OwnLinesAreNotAuthorization(cfg, written);
    NoneNamedIsNamedOnly(ForwardedLine(cfg, written), AUTHORIZATION, added);
    NoneNamedIsNamedOnly(CountryLine(cfg), AUTHORIZATION, added);
    NoneNamedIsNamedOnly(HostLine(cfg), AUTHORIZATION, added);
    NoneNamedIsNamedOnly(ConnectionLine(cfg), AUTHORIZATION, added);
    NoneNamedIsNamedOnly(HstsLine(cfg), AUTHORIZATION, added);
    InjectedOnly(ForwardedLine(cfg, written), CountryLine(cfg), HostLine(cfg), added, ConnectionLine(cfg), HstsLine(cfg));
    NamedOnlyAppend(Rewritten(cfg, lines), Injected(cfg, written), AUTHORIZATION, added);
  }

  lemma {:induction false} KeptAreNot(cfg: Config, lines: seq<bytes>)
    requires exists i :: 0 <= i < |cfg.remove| && Named(cfg.remove[i], AUTHORIZATION)
    ensures NoneNamed(Rewritten(cfg, lines), AUTHORIZATION)
  {
    RemovedNeverPasses(cfg, lines);
    var kept := Rewritten(cfg, lines);
    forall k | 0 <= k < |kept| ensures !Named(NameOf(kept[k]), AUTHORIZATION) { AuthorizationIsDropped(cfg, NameOf(kept[k])); }
  }

  lemma AuthorizationIsDropped(cfg: Config, name: bytes)
    requires exists i :: 0 <= i < |cfg.remove| && Named(cfg.remove[i], AUTHORIZATION)
    ensures Named(name, AUTHORIZATION) ==> Dropped(cfg, name)
  {
    var i :| 0 <= i < |cfg.remove| && Named(cfg.remove[i], AUTHORIZATION);
    if Named(name, AUTHORIZATION) { assert SameName(cfg.remove[i], name); }
  }

  lemma {:induction false} InjectedOnly(a: seq<bytes>, b: seq<bytes>, c: seq<bytes>, added: seq<bytes>, e: seq<bytes>, f: seq<bytes>)
    requires NamedOnly(a, AUTHORIZATION, added) && NamedOnly(b, AUTHORIZATION, added) && NamedOnly(c, AUTHORIZATION, added)
    requires NamedOnly(e, AUTHORIZATION, added) && NamedOnly(f, AUTHORIZATION, added)
    ensures NamedOnly(a + b + c + added + e + f, AUTHORIZATION, added)
  {
    NamedOnlyAppend(a, b, AUTHORIZATION, added);
    NamedOnlyAppend(a + b, c, AUTHORIZATION, added);
    NamedOnlyAppend(a + b + c, added, AUTHORIZATION, added);
    NamedOnlyAppend(a + b + c + added, e, AUTHORIZATION, added);
    NamedOnlyAppend(a + b + c + added + e, f, AUTHORIZATION, added);
  }

  predicate Blank(s: bytes) { forall i :: 0 <= i < |s| ==> s[i] == SPACE || s[i] == 9 }

  lemma PaddedIsNoOther(name: bytes, pad: bytes)
    requires Named(name, AUTHORIZATION) && pad != []
    ensures !Named(name + pad, AUTHORIZATION) && !Named(name + pad, HOST) && !Named(name + pad, PROXY_TO)
    ensures !Named(name + pad, LOWER_X_FORWARDED_FOR) && !Named(name + pad, LOWER_CF_IPCOUNTRY)
  {
    var whole := name + pad;
    assert |AUTHORIZATION| == 13 && |HOST| == 4 && |PROXY_TO| < 13 && |LOWER_CF_IPCOUNTRY| == 12;
    LoweredAt(whole, 0);
    LoweredAt(name, 0);
    assert whole[0] == name[0];
    assert AUTHORIZATION[0] != LOWER_X_FORWARDED_FOR[0];
  }

  lemma NoneSame(configured: seq<bytes>, more: bytes, name: bytes)
    requires forall i :: 0 <= i < |configured| ==> !SameName(configured[i], name)
    requires !SameName(more, name)
    ensures forall i :: 0 <= i < |configured + [more]| ==> !SameName((configured + [more])[i], name)
  {
  }

  lemma {:induction false} OtherNameStays(cfg: Config, configured: seq<bytes>, name: bytes)
    requires cfg.remove == EndpointRemoves(configured, true) && !Named(name, AUTHORIZATION)
    requires !cfg.(remove := configured).HasToBeRemoved(name)
    ensures !cfg.HasToBeRemoved(name)
  {
    AuthorizationIsLower();
    var plain := cfg.(remove := configured);
    assert plain.remove == configured && plain.added == cfg.added;
    NoneSame(configured, AUTHORIZATION, name);
  }

  /** Names are compared whole. A line whose name is authorization with white space before
      the colon stays here exactly when there is none, unless the settings name it so. */
  lemma {:induction false} TokenLineStaysIff(cfg: Config, configured: seq<bytes>, l: bytes, name: bytes, pad: bytes)
    requires cfg.remove == EndpointRemoves(configured, true) && !cfg.(remove := configured).HasToBeRemoved(name + pad)
    requires NameOf(l) == name + pad && Named(name, AUTHORIZATION) && Blank(pad)
    ensures RewriteLine(cfg, l) == if pad == [] then [] else [l]
  {
    if pad == [] {
      assert name + pad == name;
      OAuthRemoves(configured);
      AuthorizationIsDropped(cfg, name);
    } else {
      PaddedIsNoOther(name, pad);
      OtherNameStays(cfg, configured, name + pad);
    }
  }
}
