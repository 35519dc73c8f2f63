/** Rewriting a parsed head on its way to the other side (`compile_headers` of
    src/h1_proxy_server/h1_read_part.rs, src/h1_utils/http1_headers_builder.rs and
    src/configurations/modify_headers_config.rs). */
module HeadRewrite {
  import opened Prelude
  import opened Text
  import opened HttpHead
  import Utf8

  const SPACE: byte := 0x20
  const COMMA: byte := 0x2C

  // Names and values the proxy writes.

  /** X-Forwarded-For */
  const X_FORWARDED_FOR: bytes := [0x58, 0x2D, 0x46, 0x6F, 0x72, 0x77, 0x61, 0x72, 0x64, 0x65, 0x64, 0x2D, 0x46, 0x6F, 0x72]

  /** CF-IPCountry */
  const CF_IPCOUNTRY: bytes := [0x43, 0x46, 0x2D, 0x49, 0x50, 0x43, 0x6F, 0x75, 0x6E, 0x74, 0x72, 0x79]

  /** Host */
  const HOST_NAME: bytes := [0x48, 0x6F, 0x73, 0x74]

  /** Connection */
  const CONNECTION: bytes := [0x43, 0x6F, 0x6E, 0x6E, 0x65, 0x63, 0x74, 0x69, 0x6F, 0x6E]

  /** close */
  const CLOSE: bytes := [0x63, 0x6C, 0x6F, 0x73, 0x65]

  /** Strict-Transport-Security */
  const HSTS: bytes := [0x53, 0x74, 0x72, 0x69, 0x63, 0x74, 0x2D, 0x54, 0x72, 0x61, 0x6E, 0x73, 0x70, 0x6F, 0x72, 0x74, 0x2D, 0x53, 0x65, 0x63,
                        0x75, 0x72, 0x69, 0x74, 0x79]

  /** max-age=31536000; includeSubDomains; preload */
  const HSTS_VALUE: bytes := [0x6D, 0x61, 0x78, 0x2D, 0x61, 0x67, 0x65, 0x3D, 0x33, 0x31, 0x35, 0x33, 0x36, 0x30, 0x30, 0x30, 0x3B, 0x20, 0x69, 0x6E,
                        0x63, 0x6C, 0x75, 0x64, 0x65, 0x53, 0x75, 0x62, 0x44, 0x6F, 0x6D, 0x61, 0x69, 0x6E, 0x73, 0x3B, 0x20, 0x70, 0x72, 0x65,
                        0x6C, 0x6F, 0x61, 0x64]

  // Names that client headers are compared with, in lower case.

  /** x-forwarded-for */
  const LOWER_X_FORWARDED_FOR: bytes := [0x78, 0x2D, 0x66, 0x6F, 0x72, 0x77, 0x61, 0x72, 0x64, 0x65, 0x64, 0x2D, 0x66, 0x6F, 0x72]

  /** cf-ipcountry */
  const LOWER_CF_IPCOUNTRY: bytes := [0x63, 0x66, 0x2D, 0x69, 0x70, 0x63, 0x6F, 0x75, 0x6E, 0x74, 0x72, 0x79]

  /** proxy-to */
  const PROXY_TO: bytes := [0x70, 0x72, 0x6F, 0x78, 0x79, 0x2D, 0x74, 0x6F]

  /** websocket */
  const WEBSOCKET: bytes := [0x77, 0x65, 0x62, 0x73, 0x6F, 0x63, 0x6B, 0x65, 0x74]

  /** The name is the given lower-case one, ignoring ASCII case. */
  predicate Named(name: bytes, lower: bytes) { Lowered(name) == lower }

  /** A configured header: its template and what the template comes to on this request. */
  datatype Added = Added(name: bytes, template: bytes, value: bytes)

  datatype Side =
    | Request(clientIp: Option<bytes>, injectCountry: bool, country: Option<bytes>)
    | Response(keepAlive: bool, hstsOverHttps: bool)

  datatype Config = Config(
    side: Side, mcpPath: Option<bytes>, hostOverride: Option<bytes>, remove: seq<bytes>, added: seq<Added>)
  {
    /** The client address, known only for requests. */
    function ClientIp(): (r: Option<bytes>) { if side.Request? then side.clientIp else None }

    predicate InjectsCountry() { side.Request? && side.injectCountry }

    predicate HasToBeRemoved(name: bytes)
    {
      || (exists i :: 0 <= i < |remove| && SameName(remove[i], name))
      || (exists i :: 0 <= i < |added| && SameName(added[i].name, name))
    }
  }

  // ----- lines

  predicate HasColon(line: bytes) { COLON in line }

  function NameOf(line: bytes): (r: bytes) { line[..FirstIndex(line, COLON, 0)] }

  function HeaderLine(name: bytes, value: bytes): (r: bytes) { name + [COLON, SPACE] + value }

  /** The client's own value of X-Forwarded-For, trimmed; nothing when it is not UTF-8. */
  function ForwardedValue(line: bytes): (r: bytes)
  {
    var c := FirstIndex(line, COLON, 0);
    match Utf8.FromUtf8(if c < |line| then line[c + 1..] else [])
    case Some(s) => Utf8.Encode(Trim(s))
    case None => []
  }

  predicate Dropped(cfg: Config, name: bytes)
  {
    || (cfg.hostOverride.Some? && (Named(name, HOST) || Named(name, PROXY_TO)))
    || cfg.HasToBeRemoved(name)
  }

  /** The line, or none, that takes the place of a header line. */
  function RewriteLine(cfg: Config, line: bytes): (r: seq<bytes>)
    ensures |r| <= 1
  {
    var name := NameOf(line);
    if Dropped(cfg, name) then []
    else if Named(name, LOWER_X_FORWARDED_FOR) then
      if cfg.ClientIp().Some? then [HeaderLine(X_FORWARDED_FOR, ForwardedValue(line) + [COMMA] + cfg.ClientIp().value)]
      else [line]
    else if cfg.InjectsCountry() && Named(name, LOWER_CF_IPCOUNTRY) then []
    else [line]
  }

  predicate KeepsForwarded(cfg: Config, line: bytes)
  {
    !Dropped(cfg, NameOf(line)) && Named(NameOf(line), LOWER_X_FORWARDED_FOR)
  }

  predicate AllHaveColon(lines: seq<bytes>) { lines == [] || (HasColon(lines[0]) && AllHaveColon(lines[1..])) }

  function Rewritten(cfg: Config, lines: seq<bytes>): (r: seq<bytes>)
  {
    if lines == [] then [] else RewriteLine(cfg, lines[0]) + Rewritten(cfg, lines[1..])
  }

  predicate AnyForwarded(cfg: Config, lines: seq<bytes>)
  {
    lines != [] && (KeepsForwarded(cfg, lines[0]) || AnyForwarded(cfg, lines[1..]))
  }

  function AddedLines(added: seq<Added>): (r: seq<bytes>)
  {
    if added == [] then []
    else (if added[0].template == [] || added[0].value == [] then [] else [HeaderLine(added[0].name, added[0].value)])
         + AddedLines(added[1..])
  }

  function ForwardedLine(cfg: Config, written: bool): (r: seq<bytes>)
  {
    if !written && cfg.ClientIp().Some? then [HeaderLine(X_FORWARDED_FOR, cfg.ClientIp().value)] else []
  }

  function CountryLine(cfg: Config): (r: seq<bytes>)
  {
    if cfg.InjectsCountry() && cfg.side.clientIp.Some? && cfg.side.country.Some? then [HeaderLine(CF_IPCOUNTRY, cfg.side.country.value)] else []
  }

  function HostLine(cfg: Config): (r: seq<bytes>)
  {
    if cfg.hostOverride.Some? then [HeaderLine(HOST_NAME, cfg.hostOverride.value)] else []
  }

  function ConnectionLine(cfg: Config): (r: seq<bytes>)
  {
    if cfg.side.Response? && !cfg.side.keepAlive then [HeaderLine(CONNECTION, CLOSE)] else []
  }

  function HstsLine(cfg: Config): (r: seq<bytes>)
  {
    if cfg.side.Response? && cfg.side.hstsOverHttps then [HeaderLine(HSTS, HSTS_VALUE)] else []
  }

  /** The headers the proxy adds after those it kept. */
  function Injected(cfg: Config, written: bool): (r: seq<bytes>)
  {
    ForwardedLine(cfg, written) + CountryLine(cfg) + HostLine(cfg) + AddedLines(cfg.added) + ConnectionLine(cfg) + HstsLine(cfg)
  }

  function OutLines(cfg: Config, lines: seq<bytes>): (r: seq<bytes>)
  {
    Rewritten(cfg, lines) + Injected(cfg, AnyForwarded(cfg, lines))
  }

  function Unlines(lines: seq<bytes>): (r: bytes)
  {
    if lines == [] then [] else lines[0] + CRLF + Unlines(lines[1..])
  }

  lemma {:induction false} UnlinesAppend(a: seq<bytes>, b: seq<bytes>)
    ensures Unlines(a + b) == Unlines(a) + Unlines(b)
  {
    if a == [] {
      assert a + b == b;
    } else {
      UnlinesAppend(a[1..], b);
      assert (a + b)[1..] == a[1..] + b;
    }
  }

  // ----- the first line

  /** What is left of a sequence from its first `c` on. */
  function FromFirst<T(==)>(s: seq<T>, c: T): (r: seq<T>) { s[FirstIndex(s, c, 0)..] }

  /** The first line with its second space-separated item replaced. */
  function RewriteFirst(line: bytes, path: bytes): (r: bytes)
  {
    var i := FirstIndex(line, SPACE, 0);
    if i == |line| then line else line[..i] + [SPACE] + (path + FromFirst(line[i + 1..], SPACE))
  }

  function FirstLineOut(cfg: Config, line: bytes): (r: bytes)
  {
    if cfg.mcpPath.Some? then RewriteFirst(line, cfg.mcpPath.value) else line
  }

  function Joined(items: seq<bytes>): (r: bytes)
  {
    if items == [] then [] else if |items| == 1 then items[0] else items[0] + [SPACE] + Joined(items[1..])
  }

  lemma JoinedCons(item: bytes, more: seq<bytes>)
    requires more != []
    ensures Joined([item] + more) == item + [SPACE] + Joined(more)
  {
    assert ([item] + more)[1..] == more;
  }

  lemma {:induction false} JoinUndoesSplit(line: bytes)
    ensures Joined(Split(line, SPACE)) == line
    decreases |line|
  {
    var i := FirstIndex(line, SPACE, 0);
    if i < |line| {
      JoinUndoesSplit(line[i + 1..]);
      JoinedCons(line[..i], Split(line[i + 1..], SPACE));
      assert line == line[..i] + [SPACE] + line[i + 1..];
    }
  }

  lemma {:induction false} JoinTail(line: bytes)
    ensures var items := Split(line, SPACE);
            (if items[1..] == [] then [] else [SPACE] + Joined(items[1..])) == FromFirst(line, SPACE)
  {
    var items, i := Split(line, SPACE), FirstIndex(line, SPACE, 0);
    if i < |line| {
      JoinUndoesSplit(line[i + 1..]);
      assert items[1..] == Split(line[i + 1..], SPACE);
      assert [SPACE] + line[i + 1..] == line[i..];
    }
  }

  lemma {:induction false} JoinTwo(a: bytes, b: bytes, more: seq<bytes>)
    ensures Joined([a, b] + more) == a + [SPACE] + (b + (if more == [] then [] else [SPACE] + Joined(more)))
  {
    assert ([a, b] + more)[1..] == [b] + more;
    if more == [] {
      assert [b] + more == [b];
    } else {
      assert ([b] + more)[1..] == more;
    }
  }

  /** The items of a line with the second one replaced. */
  function Swap(items: seq<bytes>, path: bytes): (r: seq<bytes>)
  {
    if |items| < 2 then items else [items[0], path] + items[2..]
  }

  lemma SwapCons(a: bytes, more: seq<bytes>, path: bytes)
    requires more != []
    ensures Swap([a] + more, path) == [a, path] + more[1..]
  {
    assert ([a] + more)[2..] == more[1..];
  }

  lemma {:induction false} JoinSwapped(line: bytes, path: bytes)
    ensures Joined(Swap(Split(line, SPACE), path)) == RewriteFirst(line, path)
  {
    var i := FirstIndex(line, SPACE, 0);
    if i < |line| {
      var more := Split(line[i + 1..], SPACE);
      SwapCons(line[..i], more, path);
      JoinTwo(line[..i], path, more[1..]);
      JoinTail(line[i + 1..]);
    }
  }

  // ----- the upgrade check

  /** `compare_case_insensitive`: walks `right` and takes a byte of `left` for each. */
  function Compare(left: bytes, right: bytes): (r: Result<bool>)
  {
    if right == [] then Done(true)
    else if left == [] then Panicked
    else if LowerByte(left[0]) == LowerByte(right[0]) then Compare(left[1..], right[1..])
    else Done(false)
  }

  function IsWebSocket(b: bytes, upgrade: Option<Position>): (r: Result<bool>)
    requires upgrade.Some? ==> upgrade.value.end <= |b|
  {
    if upgrade.None? then Done(false)
    else if upgrade.value.start > upgrade.value.end then Panicked
    else Compare(b[upgrade.value.start..upgrade.value.end], WEBSOCKET)
  }

  /** It decides whether `right` starts `left`, and panics exactly when `left` is a proper
      prefix of `right`. */
  lemma {:induction false} CompareExactly(left: bytes, right: bytes)
    ensures Compare(left, right) == Done(true) <==> |right| <= |left| && SameName(left[..|right|], right)
    ensures Compare(left, right).Panicked? <==> |left| < |right| && SameName(left, right[..|left|])
    ensures !Compare(left, right).Incomplete?
  {
    if left != [] && right != [] {
      CompareExactly(left[1..], right[1..]);
      if |right| <= |left| {
        var l := left[..|right|];
        assert l[1..] == left[1..][..|right| - 1];
        LoweredFirst(l);
        LoweredFirst(right);
      } else {
        var r := right[..|left|];
        assert r[1..] == right[1..][..|left| - 1];
        LoweredFirst(r);
        LoweredFirst(left);
      }
    }
  }

  lemma LoweredFirst(s: bytes)
    requires s != []
    ensures Lowered(s)[0] == LowerByte(s[0]) && Lowered(s)[1..] == Lowered(s[1..]) && Lowered(s) == [Lowered(s)[0]] + Lowered(s)[1..]
  {
  }

  method CompareLoop(left: bytes, right: bytes) returns (r: Result<bool>)
    ensures r == Compare(left, right)
  {
    for i := 0 to |right|
      invariant i <= |left| && Compare(left, right) == Compare(left[i..], right[i..])
    {
      assert right[i..][1..] == right[i + 1..];
      if i == |left| { return Panicked; }
      assert left[i..][1..] == left[i + 1..];
      if LowerByte(right[i]) != LowerByte(left[i]) { return Done(false); }
    }
    return Done(true);
  }

  // ----- the rewriting loop

  /** The rewritten head of a first line and its header lines. */
  function Output(cfg: Config, first: bytes, lines: seq<bytes>): (r: bytes)
  {
    FirstLineOut(cfg, first) + CRLF + Unlines(OutLines(cfg, lines)) + CRLF
  }

  class Http1HeadersBuilder {
    var payload: bytes

    constructor ()
      ensures payload == []
    {
      payload := [];
    }

    method Clear()
      modifies this
      ensures payload == []
    {
      payload := [];
    }

    method PushRawPayload(buffer: bytes)
      modifies this
      ensures payload == old(payload) + buffer
    {
      payload := payload + buffer;
    }

    method PushClCr()
      modifies this
      ensures payload == old(payload) + CRLF
    {
      payload := payload + CRLF;
    }

    method PushHeader(name: bytes, value: bytes)
      modifies this
      ensures payload == old(payload) + Unlines([HeaderLine(name, value)])
    {
      OneLine(HeaderLine(name, value));
      payload := payload + name;
      payload := payload + [COLON, SPACE];
      payload := payload + value;
      payload := payload + CRLF;
      assert payload == old(payload) + (name + [COLON, SPACE] + value + CRLF);
    }
  }

  lemma OneLine(line: bytes)
    ensures Unlines([line]) == line + CRLF
  {
    assert Unlines([line][1..]) == [];
  }

  lemma {:induction false} JoinedGrows(items: seq<bytes>, n: nat)
    requires 0 < n < |items|
    ensures Joined(items[..n + 1]) == Joined(items[..n]) + [SPACE] + items[n]
    decreases n
  {
    if n == 1 {
      assert items[..2] == [items[0], items[1]];
      assert Joined(items[..2][1..]) == items[1] by { assert items[..2][1..] == [items[1]]; }
    } else {
      var tail := items[1..];
      JoinedGrows(tail, n - 1);
      assert items[..n + 1][1..] == tail[..n] && items[..n][1..] == tail[..n - 1];
    }
  }

  /** The first line goes out item by item, the second one replaced. */
  method PushFirstLineWithOtherPath(line: bytes, path: bytes, out: Http1HeadersBuilder)
    modifies out
    ensures out.payload == old(out.payload) + RewriteFirst(line, path)
  {
    var items := Split(line, SPACE);
    ghost var swapped := Swap(items, path);
    JoinSwapped(line, path);
    for no := 0 to |items|
      invariant out.payload == old(out.payload) + Joined(swapped[..no])
    {
      if no > 0 {
        JoinedGrows(swapped, no);
        out.PushRawPayload([SPACE]);
      } else {
        assert swapped[..1] == [swapped[0]];
      }
      if no == 1 {
        out.PushRawPayload(path);
      } else {
        out.PushRawPayload(items[no]);
      }
    }
    assert swapped[..|items|] == swapped;
  }

  method PushLine(cfg: Config, line: bytes, out: Http1HeadersBuilder) returns (forwarded: bool)
    modifies out
    ensures out.payload == old(out.payload) + Unlines(RewriteLine(cfg, line))
    ensures forwarded == KeepsForwarded(cfg, line)
  {
    var name := NameOf(line);
    OneLine(line);
    forwarded := false;
    if !Dropped(cfg, name) {
      if Named(name, LOWER_X_FORWARDED_FOR) {
        forwarded := true;
        if cfg.ClientIp().Some? {
          out.PushHeader(X_FORWARDED_FOR, ForwardedValue(line) + [COMMA] + cfg.ClientIp().value);
        } else {
          out.PushRawPayload(line + CRLF);
        }
      } else if cfg.InjectsCountry() && Named(name, LOWER_CF_IPCOUNTRY) {
      } else {
        out.PushRawPayload(line + CRLF);
      }
    }
  }

  method PushAdded(added: seq<Added>, out: Http1HeadersBuilder)
    modifies out
    ensures out.payload == old(out.payload) + Unlines(AddedLines(added))
  {
    for i := 0 to |added|
      invariant out.payload + Unlines(AddedLines(added[i..])) == old(out.payload) + Unlines(AddedLines(added))
    {
      AddedNext(added, i);
      AddedWritten(out.payload, added[i], Unlines(AddedLines(added[i + 1..])));
      if added[i].template == [] { continue; }
      if added[i].value == [] { continue; }
      out.PushHeader(added[i].name, added[i].value);
    }
  }

  lemma AddedWritten(payload: bytes, a: Added, more: bytes)
    ensures payload + Unlines([HeaderLine(a.name, a.value)]) + more == payload + (Unlines([HeaderLine(a.name, a.value)]) + more)
    ensures payload + ([] + more) == payload + more
  {
    assert [] + more == more;
  }

  lemma {:induction false} AddedNext(added: seq<Added>, i: nat)
    requires i < |added|
    ensures Unlines(AddedLines(added[i..]))
         == (if added[i].template == [] || added[i].value == [] then [] else Unlines([HeaderLine(added[i].name, added[i].value)]))
            + Unlines(AddedLines(added[i + 1..]))
  {
    assert added[i..][1..] == added[i + 1..];
    UnlinesAppend(if added[i].template == [] || added[i].value == [] then [] else [HeaderLine(added[i].name, added[i].value)],
                  AddedLines(added[i + 1..]));
  }

  lemma {:induction false} UnlinesInjected(cfg: Config, written: bool)
    ensures Unlines(Injected(cfg, written))
         == Unlines(ForwardedLine(cfg, written)) + Unlines(CountryLine(cfg)) + Unlines(HostLine(cfg))
            + Unlines(AddedLines(cfg.added)) + Unlines(ConnectionLine(cfg)) + Unlines(HstsLine(cfg))
  {
    UnlinesSix(ForwardedLine(cfg, written), CountryLine(cfg), HostLine(cfg), AddedLines(cfg.added), ConnectionLine(cfg), HstsLine(cfg));
  }

  lemma {:induction false} UnlinesSix(a: seq<bytes>, b: seq<bytes>, c: seq<bytes>, d: seq<bytes>, e: seq<bytes>, f: seq<bytes>)
    ensures Unlines(a + b + c + d + e + f) == Unlines(a) + Unlines(b) + Unlines(c) + Unlines(d) + Unlines(e) + Unlines(f)
  {
    UnlinesAppend(a, b);
    UnlinesAppend(a + b, c);
    UnlinesAppend(a + b + c, d);
    UnlinesAppend(a + b + c + d, e);
    UnlinesAppend(a + b + c + d + e, f);
  }

  method PushOptional(wanted: bool, name: bytes, value: bytes, out: Http1HeadersBuilder)
    modifies out
    ensures out.payload == old(out.payload) + Unlines(if wanted then [HeaderLine(name, value)] else [])
  {
    if wanted { out.PushHeader(name, value); }
  }

  lemma RegroupSix(p: bytes, a: bytes, b: bytes, c: bytes, d: bytes, e: bytes, f: bytes)
    ensures p + a + b + c + d + e + f == p + (a + b + c + d + e + f)
  {
  }

  method PushInjected(cfg: Config, written: bool, out: Http1HeadersBuilder)
    modifies out
    ensures out.payload == old(out.payload) + Unlines(Injected(cfg, written))
  {
    UnlinesInjected(cfg, written);
    RegroupSix(out.payload, Unlines(ForwardedLine(cfg, written)), Unlines(CountryLine(cfg)), Unlines(HostLine(cfg)),
               Unlines(AddedLines(cfg.added)), Unlines(ConnectionLine(cfg)), Unlines(HstsLine(cfg)));
    PushForwarded(cfg, written, out);
    PushCountry(cfg, out);
    PushHost(cfg, out);
    PushAdded(cfg.added, out);
    PushConnection(cfg, out);
    PushHsts(cfg, out);
  }

  method PushForwarded(cfg: Config, written: bool, out: Http1HeadersBuilder)
    modifies out
    ensures out.payload == old(out.payload) + Unlines(ForwardedLine(cfg, written))
  {
    if !written && cfg.ClientIp().Some? { out.PushHeader(X_FORWARDED_FOR, cfg.ClientIp().value); }
  }

  method PushCountry(cfg: Config, out: Http1HeadersBuilder)
    modifies out
    ensures out.payload == old(out.payload) + Unlines(CountryLine(cfg))
  {
    if cfg.InjectsCountry() && cfg.side.clientIp.Some? && cfg.side.country.Some? { out.PushHeader(CF_IPCOUNTRY, cfg.side.country.value); }
  }

  method PushHost(cfg: Config, out: Http1HeadersBuilder)
    modifies out
    ensures out.payload == old(out.payload) + Unlines(HostLine(cfg))
  {
    if cfg.hostOverride.Some? { out.PushHeader(HOST_NAME, cfg.hostOverride.value); }
  }

  method PushConnection(cfg: Config, out: Http1HeadersBuilder)
    modifies out
    ensures out.payload == old(out.payload) + Unlines(ConnectionLine(cfg))
  {
    PushOptional(cfg.side.Response? && !cfg.side.keepAlive, CONNECTION, CLOSE, out);
  }

  method PushHsts(cfg: Config, out: Http1HeadersBuilder)
    modifies out
    ensures out.payload == old(out.payload) + Unlines(HstsLine(cfg))
  {
    PushOptional(cfg.side.Response? && cfg.side.hstsOverHttps, HSTS, HSTS_VALUE, out);
  }

  lemma {:induction false} RewrittenNext(cfg: Config, line: bytes, more: seq<bytes>)
    ensures Unlines(Rewritten(cfg, [line] + more)) == Unlines(RewriteLine(cfg, line)) + Unlines(Rewritten(cfg, more))
    ensures AnyForwarded(cfg, [line] + more) <==> KeepsForwarded(cfg, line) || AnyForwarded(cfg, more)
  {
    assert ([line] + more)[1..] == more;
    UnlinesAppend(RewriteLine(cfg, line), Rewritten(cfg, more));
  }

  lemma {:induction false} RewrittenAfter(cfg: Config, before: bytes, line: bytes, more: seq<bytes>)
    ensures before + Unlines(Rewritten(cfg, [line] + more)) == before + Unlines(RewriteLine(cfg, line)) + Unlines(Rewritten(cfg, more))
  {
    RewrittenNext(cfg, line, more);
    Associates(before, Unlines(RewriteLine(cfg, line)), Unlines(Rewritten(cfg, more)));
  }

  lemma {:induction false} LinesNext(b: bytes, pos: nat)
    requires pos <= |b| && Lines(b, pos).Some?
    ensures FindCrlf(b, pos).Some?
    ensures var next := FindCrlf(b, pos).value;
            var block := Lines(b, pos).value;
            if next == pos then block == Block([], pos + 2)
            else Lines(b, next + 2).Some? && block == Block([b[pos..next]] + Lines(b, next + 2).value.lines, Lines(b, next + 2).value.end)
  {
  }

  lemma {:induction false} FirstAndMore(b: bytes, pos: nat, block: Block) returns (next: nat, more: Block)
    requires pos <= |b| && Lines(b, pos) == Some(block)
    ensures FindCrlf(b, pos) == Some(next)
    ensures next == pos ==> block.lines == []
    ensures next != pos ==> pos < next && next + 2 <= |b| && Lines(b, next + 2) == Some(more) && block == Block([b[pos..next]] + more.lines, more.end)
  {
    LinesNext(b, pos);
    next := FindCrlf(b, pos).value;
    more := if next == pos then block else Lines(b, next + 2).value;
  }

  lemma ColonsNext(line: bytes, more: seq<bytes>)
    ensures AllHaveColon([line] + more) <==> HasColon(line) && AllHaveColon(more)
  {
    assert ([line] + more)[1..] == more;
  }

  /** `now` holds all of the rewritten lines but those of `rest`. */
  ghost predicate Progress(cfg: Config, whole: seq<bytes>, rest: seq<bytes>, before: bytes, now: bytes, forwarded: bool)
  {
    && (AllHaveColon(whole) <==> AllHaveColon(rest))
    && (AnyForwarded(cfg, whole) <==> forwarded || AnyForwarded(cfg, rest))
    && before + Unlines(Rewritten(cfg, whole)) == now + Unlines(Rewritten(cfg, rest))
  }

  lemma {:induction false} ProgressNext(cfg: Config, whole: seq<bytes>, line: bytes, more: seq<bytes>, before: bytes, now: bytes, forwarded: bool)
    requires Progress(cfg, whole, [line] + more, before, now, forwarded) && HasColon(line)
    ensures Progress(cfg, whole, more, before, now + Unlines(RewriteLine(cfg, line)), forwarded || KeepsForwarded(cfg, line))
  {
    ColonsNext(line, more);
    ForwardedNext(cfg, line, more);
    RewrittenAfter(cfg, now, line, more);
  }

  lemma ForwardedNext(cfg: Config, line: bytes, more: seq<bytes>)
    ensures AnyForwarded(cfg, [line] + more) <==> KeepsForwarded(cfg, line) || AnyForwarded(cfg, more)
  {
    assert ([line] + more)[1..] == more;
  }

  method PushNext(cfg: Config, ghost whole: seq<bytes>, line: bytes, ghost more: seq<bytes>, ghost before: bytes,
                  forwarded: bool, out: Http1HeadersBuilder) returns (written: bool)
    requires Progress(cfg, whole, [line] + more, before, out.payload, forwarded) && HasColon(line)
    modifies out
    ensures Progress(cfg, whole, more, before, out.payload, written)
  {
    ProgressNext(cfg, whole, line, more, before, out.payload, forwarded);
    var kept := PushLine(cfg, line, out);
    written := forwarded || kept;
  }

  lemma {:induction false} ProgressDone(cfg: Config, whole: seq<bytes>, before: bytes, now: bytes, forwarded: bool)
    requires Progress(cfg, whole, [], before, now, forwarded)
    ensures AllHaveColon(whole) && forwarded == AnyForwarded(cfg, whole) && now == before + Unlines(Rewritten(cfg, whole))
  {
  }

  /** One turn of the loop over the header lines: either a line without a colon, or the
      line is written and the next one begins. */
  method PushAt(cfg: Config, data: bytes, pos: nat, next: nat, ghost whole: seq<bytes>, ghost rest: Block, ghost before: bytes,
                already: bool, out: Http1HeadersBuilder) returns (ok: bool, forwarded: bool, ghost more: Block)
    requires pos <= |data| && Lines(data, pos) == Some(rest) && FindCrlf(data, pos) == Some(next) && next != pos
    requires Progress(cfg, whole, rest.lines, before, out.payload, already)
    modifies out
    ensures !ok ==> !AllHaveColon(whole)
    ensures ok ==> Lines(data, next + 2) == Some(more) && more.end == rest.end
    ensures ok ==> Progress(cfg, whole, more.lines, before, out.payload, forwarded)
  {
    LinesNext(data, pos);
    var line := data[pos..next];
    more := Lines(data, next + 2).value;
    if !HasColon(line) {
      ColonsNext(line, more.lines);
      return false, already, more;
    }
    forwarded := PushNext(cfg, whole, line, more.lines, before, already, out);
    ok := true;
  }

  /** The loop over the header lines: its search for the next CRLF never comes up empty on
      a parsed head, and it stops exactly where the parse measured the end of the head. */
  method PushLines(cfg: Config, data: bytes, start: nat, out: Http1HeadersBuilder) returns (ok: bool, forwarded: bool, stopped: nat)
    requires start <= |data| && Lines(data, start).Some?
    modifies out
    ensures !ok ==> !AllHaveColon(Lines(data, start).value.lines)
    ensures ok ==> Progress(cfg, Lines(data, start).value.lines, [], old(out.payload), out.payload, forwarded)
    ensures ok ==> stopped + 2 == Lines(data, start).value.end
  {
    ghost var whole := Lines(data, start).value;
    ghost var rest := whole;
    var pos := start;
    ok, forwarded := true, false;
    while true
      invariant start <= pos <= |data| && Lines(data, pos) == Some(rest) && rest.end == whole.end
      invariant Progress(cfg, whole.lines, rest.lines, old(out.payload), out.payload, forwarded)
      decreases |data| - pos
    {
      LinesNext(data, pos);
      var next := FindCrlf(data, pos).value;
      if next == pos {
        return true, forwarded, pos;
      }
      ok, forwarded, rest := PushAt(cfg, data, pos, next, whole.lines, rest, old(out.payload), forwarded, out);
      if !ok { return false, forwarded, pos; }
      pos := next + 2;
    }
  }

  method PushFirst(cfg: Config, first: bytes, out: Http1HeadersBuilder)
    modifies out
    ensures out.payload == FirstLineOut(cfg, first) + CRLF
  {
    out.Clear();
    if cfg.mcpPath.Some? {
      PushFirstLineWithOtherPath(first, cfg.mcpPath.value, out);
    } else {
      out.PushRawPayload(first);
    }
    assert out.payload == FirstLineOut(cfg, first);
    out.PushClCr();
  }

  method CheckUpgrade(data: bytes, upgrade: Option<Position>) returns (r: Result<bool>)
    requires Within(upgrade, |data|)
    ensures r == IsWebSocket(data, upgrade)
  {
    if upgrade.None? { return Done(false); }
    if upgrade.value.start > upgrade.value.end { return Panicked; }
    r := CompareLoop(data[upgrade.value.start..upgrade.value.end], WEBSOCKET);
  }

  lemma {:induction false} OutputParts(cfg: Config, first: bytes, lines: seq<bytes>)
    ensures Output(cfg, first, lines)
         == FirstLineOut(cfg, first) + CRLF + Unlines(Rewritten(cfg, lines)) + Unlines(Injected(cfg, AnyForwarded(cfg, lines))) + CRLF
  {
    UnlinesAppend(Rewritten(cfg, lines), Injected(cfg, AnyForwarded(cfg, lines)));
    Associates(FirstLineOut(cfg, first) + CRLF, Unlines(Rewritten(cfg, lines)), Unlines(Injected(cfg, AnyForwarded(cfg, lines))));
  }

  lemma {:induction false} ParsedForRewrite(data: bytes)
    requires Parse(data).Done?
    ensures var h := Parse(data).value;
            && h.firstLineEnd + 2 <= h.end <= |data| && Within(h.upgrade, |data|)
            && Lines(data, h.firstLineEnd + 2).Some? && Lines(data, h.firstLineEnd + 2).value.end == h.end
  {
    ParsedShape(data);
    PositionsWithin(data, Parse(data).value.firstLineEnd + 2, Parse(data).value.firstLineEnd, NOTHING);
  }

  /** `compile_headers` on a parsed head: it fails exactly when some header line has no
      colon of its own; otherwise it writes the rewritten head and answers the upgrade
      check, and unless that panics it consumes exactly the bytes the parse measured. */
  method CompileHeaders(cfg: Config, data: bytes, h: Headers, out: Http1HeadersBuilder) returns (r: Result<bool>, consumed: nat)
    requires Parse(data) == Done(h)
    modifies out
    ensures h.firstLineEnd + 2 <= |data| && Lines(data, h.firstLineEnd + 2).Some? && Within(h.upgrade, |data|)
    ensures var lines := Lines(data, h.firstLineEnd + 2).value.lines;
            if AllHaveColon(lines) then
              && r == IsWebSocket(data, h.upgrade) && out.payload == Output(cfg, data[..h.firstLineEnd], lines)
              && consumed == (if r.Done? then h.end else 0)
            else r == Incomplete && consumed == 0
  {
    ParsedForRewrite(data);
    PushFirst(cfg, data[..h.firstLineEnd], out);
    var ok, forwarded, stopped := PushLines(cfg, data, h.firstLineEnd + 2, out);
    if !ok { return Incomplete, 0; }
    ProgressDone(cfg, Lines(data, h.firstLineEnd + 2).value.lines, FirstLineOut(cfg, data[..h.firstLineEnd]) + CRLF, out.payload, forwarded);
    PushInjected(cfg, forwarded, out);
    out.PushClCr();
    OutputParts(cfg, data[..h.firstLineEnd], Lines(data, h.firstLineEnd + 2).value.lines);
    r := CheckUpgrade(data, h.upgrade);
    consumed := if r.Done? then stopped + 2 else 0;
  }
}
