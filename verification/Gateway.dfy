/** The plaintext frames two gateways exchange (src/tcp_gateway/gateway_contracts.rs).
    Durations are nanoseconds. */
module Gateway {
  import opened Prelude
  import Utf8

  const PING: byte := 0
  const PONG: byte := 1
  const CONNECT: byte := 3
  const CONNECT_OK: byte := 4
  const CONNECTION_ERROR: byte := 5
  const SEND_PAYLOAD: byte := 6
  const RECEIVE_PAYLOAD: byte := 7
  const UPDATE_PING_TIME: byte := 8
  const GET_FILE_REQUEST: byte := 9
  const GET_FILE_RESPONSE: byte := 10
  const SYNC_SSL_CERTIFICATES: byte := 11
  const SYNC_SSL_CERTIFICATES_REQUEST: byte := 12
  const SYNC_SSL_CERTIFICATE_NOT_FOUND: byte := 13

  const NANOS := 1_000_000_000
  const TWO_32 := 0x1_0000_0000
  const TWO_64 := 0x1_0000_0000_0000_0000

  type u32 = x: int | 0 <= x < 0x1_0000_0000

  datatype FileStatus = Ok | Error {
    function AsByte(): (r: byte) { if Ok? then 0 else 1 }

    static function FromByte(b: byte): (r: FileStatus) { if b == 0 then Ok else Error }
  }

  datatype Contract =
    | Connect(connectionId: u32, timeout: nat, remoteHost: string)
    | Connected(connectionId: u32)
    | ConnectionError(connectionId: u32, error: string)
    | ForwardPayload(connectionId: u32, payload: bytes)
    | BackwardPayload(connectionId: u32, payload: bytes)
    | Ping
    | Pong
    | UpdatePingTime(duration: nat)
    | GetFileRequest(path: string, requestId: u32)
    | GetFileResponse(requestId: u32, status: FileStatus, content: bytes)
    | SyncSslCertificates(certId: string, certPem: bytes, privateKeyPem: bytes)
    | SyncSslCertificatesRequest(certIds: seq<string>)
    | SyncSslCertificateNotFound(certId: string)

  /** The low `n` bytes of `v`, least significant first: what a cast and `to_le_bytes` give. */
  function ToLe(v: nat, n: nat): (r: bytes)
    ensures |r| == n
  {
    if n == 0 then [] else [(v % 256) as byte] + ToLe(v / 256, n - 1)
  }

  function FromLe(b: bytes): (r: nat)
  {
    if b == [] then 0 else b[0] as int + 256 * FromLe(b[1..])
  }

  function Pow256(n: nat): (r: nat)
    ensures r > 0
  {
    if n == 0 then 1 else 256 * Pow256(n - 1)
  }

  /** A length, truncated to 32 bits, and then the bytes themselves. */
  function Prefixed(b: bytes): (r: bytes) { ToLe(|b|, 4) + b }

  function PrefixedIds(ids: seq<string>): (r: bytes)
  {
    if ids == [] then [] else Prefixed(Utf8.Encode(ids[0])) + PrefixedIds(ids[1..])
  }

  /** `[u8 TYPE][PAYLOAD]` */
  function Body(c: Contract): (r: bytes)
  {
    match c
    case Connect(id, timeout, host) => [CONNECT] + ToLe(id, 4) + [(timeout / NANOS % 256) as byte] + Utf8.Encode(host)
    case Connected(id) => [CONNECT_OK] + ToLe(id, 4)
    case ConnectionError(id, error) => [CONNECTION_ERROR] + ToLe(id, 4) + Utf8.Encode(error)
    case ForwardPayload(id, payload) => [SEND_PAYLOAD] + ToLe(id, 4) + payload
    case BackwardPayload(id, payload) => [RECEIVE_PAYLOAD] + ToLe(id, 4) + payload
    case Ping => [PING]
    case Pong => [PONG]
    case UpdatePingTime(duration) => [UPDATE_PING_TIME] + ToLe(duration / 1000, 8)
    case GetFileRequest(path, id) => [GET_FILE_REQUEST] + ToLe(id, 4) + Utf8.Encode(path)
    case GetFileResponse(id, status, content) => [GET_FILE_RESPONSE] + ToLe(id, 4) + [status.AsByte()] + content
    case SyncSslCertificates(id, cert, key) => [SYNC_SSL_CERTIFICATES] + (Prefixed(Utf8.Encode(id)) + (Prefixed(cert) + Prefixed(key)))
    case SyncSslCertificatesRequest(ids) => [SYNC_SSL_CERTIFICATES_REQUEST] + (ToLe(|ids|, 4) + PrefixedIds(ids))
    case SyncSslCertificateNotFound(id) => [SYNC_SSL_CERTIFICATE_NOT_FOUND] + Prefixed(Utf8.Encode(id))
  }

  /** `[u32 LEN][u8 TYPE][PAYLOAD]` */
  function Frame(c: Contract): (r: bytes) { Prefixed(Body(c)) }

  /** The loop that writes a list of certificate ids. */
  method WriteIds(ids: seq<string>) returns (body: bytes)
    ensures body == ToLe(|ids|, 4) + PrefixedIds(ids)
  {
    body := ToLe(|ids|, 4);
    for i := 0 to |ids|
      invariant body + PrefixedIds(ids[i..]) == ToLe(|ids|, 4) + PrefixedIds(ids)
    {
      var b := Utf8.Encode(ids[i]);
      assert ids[i..][1..] == ids[i + 1..];
      assert body + (Prefixed(b) + PrefixedIds(ids[i + 1..])) == (body + Prefixed(b)) + PrefixedIds(ids[i + 1..]);
      body := body + Prefixed(b);
    }
  }

  /** A parse ends in a value, in an error, or in an out-of-range index, which panics. */
  datatype Result<+T> = Parsed(value: T) | Failed | Panicked

  /** A length-prefixed slice at the front of `b`, and what follows it. */
  function ReadPrefixed(b: bytes): (r: Result<(bytes, bytes)>)
  {
    if |b| < 4 then Failed
    else
      var n := FromLe(b[..4]);
      if |b| < 4 + n then Failed else Parsed((b[4..4 + n], b[4 + n..]))
  }

  function ReadId(b: bytes): (r: Result<(string, bytes)>)
  {
    match ReadPrefixed(b)
    case Parsed((slice, rest)) =>
      (match Utf8.FromUtf8(slice)
       case Some(id) => Parsed((id, rest))
       case None => Failed)
    case _ => Failed
  }

  function Prepend(ids: seq<string>, r: Result<(seq<string>, bytes)>): (s: Result<(seq<string>, bytes)>)
  {
    if r.Parsed? then Parsed((ids + r.value.0, r.value.1)) else Failed
  }

  function ReadIds(b: bytes, count: nat): (r: Result<(seq<string>, bytes)>)
    ensures !r.Panicked?
  {
    if count == 0 then Parsed(([], b))
    else match ReadId(b)
      case Parsed((id, rest)) => Prepend([id], ReadIds(rest, count - 1))
      case _ => Failed
  }

  function ReadText(b: bytes): (r: Result<string>)
  {
    match Utf8.FromUtf8(b)
    case Some(s) => Parsed(s)
    case None => Failed
  }

  function Then<T, U>(r: Result<T>, f: T -> Result<U>): (s: Result<U>)
  {
    match r case Parsed(v) => f(v) case Failed => Failed case Panicked => Panicked
  }

  /** Parses the body of one frame. */
  function Parse(b: bytes): (r: Result<Contract>)
  {
    if b == [] then Failed
    else
      var p := b[1..];
      if b[0] == CONNECT then
        if |p| < 5 then Panicked
        else Then(ReadText(p[5..]), host => Parsed(Connect(Id(p), p[4] as int * NANOS, host)))
      else if b[0] == CONNECT_OK then
        if |p| < 4 then Panicked else Parsed(Connected(Id(p)))
      else if b[0] == CONNECTION_ERROR then
        if |p| < 4 then Panicked else Then(ReadText(p[4..]), error => Parsed(ConnectionError(Id(p), error)))
      else if b[0] == SEND_PAYLOAD then
        if |p| < 4 then Panicked else Parsed(ForwardPayload(Id(p), p[4..]))
      else if b[0] == RECEIVE_PAYLOAD then
        if |p| < 4 then Panicked else Parsed(BackwardPayload(Id(p), p[4..]))
      else if b[0] == UPDATE_PING_TIME then
        if |p| < 8 then Panicked else Parsed(UpdatePingTime(FromLe(p[..8]) * 1000))
      else if b[0] == GET_FILE_REQUEST then
        if |p| < 4 then Panicked else Then(ReadText(p[4..]), path => Parsed(GetFileRequest(path, Id(p))))
      else if b[0] == GET_FILE_RESPONSE then
        if |p| < 5 then Panicked else Parsed(GetFileResponse(Id(p), FileStatus.FromByte(p[4]), p[5..]))
      else if b[0] == SYNC_SSL_CERTIFICATE_NOT_FOUND then ParseNotFound(p)
      else if b[0] == SYNC_SSL_CERTIFICATES_REQUEST then ParseRequest(p)
      else if b[0] == SYNC_SSL_CERTIFICATES then ParseCertificates(p)
      else if b[0] == PING then Parsed(Ping)
      else if b[0] == PONG then Parsed(Pong)
      else Failed
  }

  function Id(p: bytes): (r: u32)
    requires |p| >= 4
  {
    FromLeBound(p[..4]);
    FromLe(p[..4])
  }

  function ParseNotFound(p: bytes): (r: Result<Contract>)
  {
    match ReadId(p)
    case Parsed((id, _)) => Parsed(SyncSslCertificateNotFound(id))
    case _ => Failed
  }

  function ParseRequest(p: bytes): (r: Result<Contract>)
  {
    if |p| < 4 then Failed
    else match ReadIds(p[4..], FromLe(p[..4]))
      case Parsed((ids, _)) => Parsed(SyncSslCertificatesRequest(ids))
      case _ => Failed
  }

  function ParseCertificates(p: bytes): (r: Result<Contract>)
  {
    match ReadId(p)
    case Parsed((id, afterId)) =>
      (match ReadPrefixed(afterId)
       case Parsed((cert, afterCert)) =>
         (match ReadPrefixed(afterCert)
          case Parsed((key, _)) => Parsed(SyncSslCertificates(id, cert, key))
          case _ => Failed)
       case _ => Failed)
    case _ => Failed
  }

  lemma {:induction false} FromLeBound(b: bytes)
    ensures FromLe(b) < Pow256(|b|)
    ensures |b| == 4 ==> FromLe(b) < TWO_32
    ensures |b| == 8 ==> FromLe(b) < TWO_64
  {
    if b != [] { FromLeBound(b[1..]); }
    PowersOf256();
  }

  lemma PowersOf256()
    ensures Pow256(4) == TWO_32 && Pow256(8) == TWO_64
  {
    assert Pow256(2) == 65536;
    assert Pow256(4) == 256 * (256 * Pow256(2));
    assert Pow256(6) == 256 * (256 * Pow256(4));
    assert Pow256(8) == 256 * (256 * Pow256(6));
  }

  lemma PrependTwice(a: seq<string>, id: string, r: Result<(seq<string>, bytes)>)
    ensures Prepend(a, Prepend([id], r)) == Prepend(a + [id], r)
  {
    if r.Parsed? { assert a + ([id] + r.value.0) == a + [id] + r.value.0; }
  }

  lemma ReadPrefixedAt(payload: bytes, offset: nat)
    requires offset + 4 <= |payload|
    ensures var n := FromLe(payload[offset..offset + 4]);
            ReadPrefixed(payload[offset..])
            == if |payload| < offset + 4 + n then Failed
               else Parsed((payload[offset + 4..offset + 4 + n], payload[offset + 4 + n..]))
  {
    var rest := payload[offset..];
    var n := FromLe(payload[offset..offset + 4]);
    assert rest[..4] == payload[offset..offset + 4];
    if |payload| >= offset + 4 + n {
      assert rest[4..4 + n] == payload[offset + 4..offset + 4 + n];
      assert rest[4 + n..] == payload[offset + 4 + n..];
    }
  }

  lemma {:induction false} ReadIdsAt(payload: bytes, offset: nat, count: nat)
    requires offset <= |payload| && count > 0
    ensures ReadIds(payload[offset..], count)
         == if |payload| < offset + 4 then Failed
            else
              var end := offset + 4 + FromLe(payload[offset..offset + 4]);
              if |payload| < end then Failed
              else match Utf8.FromUtf8(payload[offset + 4..end])
                case None => Failed
                case Some(id) => Prepend([id], ReadIds(payload[end..], count - 1))
  {
    if |payload| >= offset + 4 { ReadPrefixedAt(payload, offset); }
  }

  lemma PrependNone(r: Result<(seq<string>, bytes)>)
    requires !r.Panicked?
    ensures Prepend([], r) == r
  {
    if r.Parsed? { assert [] + r.value.0 == r.value.0; }
  }

  /** The loop of the certificate request: an offset that moves past each id. */
  method ReadCertIds(payload: bytes, count: nat) returns (r: Result<seq<string>>)
    requires |payload| >= 4
    ensures r == match ReadIds(payload[4..], count) case Parsed((ids, _)) => Parsed(ids) case _ => Failed
  {
    var offset := 4;
    var ids: seq<string> := [];
    PrependNone(ReadIds(payload[4..], count));
    for n := 0 to count
      invariant 4 <= offset <= |payload|
      invariant ReadIds(payload[4..], count) == Prepend(ids, ReadIds(payload[offset..], count - n))
    {
      ReadIdsAt(payload, offset, count - n);
      if |payload| < offset + 4 { return Failed; }
      var idLen := FromLe(payload[offset..offset + 4]);
      offset := offset + 4;
      var idEnd := offset + idLen;
      if |payload| < idEnd { return Failed; }
      var id := Utf8.FromUtf8(payload[offset..idEnd]);
      if id.None? { return Failed; }
      PrependTwice(ids, id.value, ReadIds(payload[idEnd..], count - n - 1));
      offset := idEnd;
      ids := ids + [id.value];
    }
    PrependEnd(ids, payload[offset..]);
    r := Parsed(ids);
  }

  lemma PrependEnd(ids: seq<string>, rest: bytes)
    ensures Prepend(ids, ReadIds(rest, 0)) == Parsed((ids, rest))
  {
    assert ids + [] == ids;
  }

  // ----- numbers

  lemma LowDigit(x: nat, y: nat)
    requires x < 256
    ensures (x + 256 * y) % 256 == x && (x + 256 * y) / 256 == y
  {
  }

  lemma {:induction false} ToUndoesFrom(b: bytes)
    ensures ToLe(FromLe(b), |b|) == b
  {
    if b != [] {
      ToUndoesFrom(b[1..]);
      LowDigit(b[0] as int, FromLe(b[1..]));
    }
  }

  lemma {:induction false} NumberRoundTrip(v: nat, n: nat)
    requires v < Pow256(n)
    ensures FromLe(ToLe(v, n)) == v
    decreases n
  {
    if n > 0 {
      assert ToLe(v, n)[1..] == ToLe(v / 256, n - 1);
      NumberRoundTrip(v / 256, n - 1);
    }
  }

  // ----- slices

  lemma {:induction false} ReadWritten(b: bytes, rest: bytes)
    requires |b| < TWO_32
    ensures ReadPrefixed(Prefixed(b) + rest) == Parsed((b, rest))
  {
    var s := Prefixed(b) + rest;
    PowersOf256();
    NumberRoundTrip(|b|, 4);
    assert s[..4] == ToLe(|b|, 4);
    assert s[4..4 + |b|] == b;
    assert s[4 + |b|..] == rest;
  }

  lemma {:induction false} WriteRead(b: bytes)
    requires ReadPrefixed(b).Parsed?
    ensures var (slice, rest) := ReadPrefixed(b).value; |slice| < TWO_32 && Prefixed(slice) + rest == b
  {
    var (slice, rest) := ReadPrefixed(b).value;
    FromLeBound(b[..4]);
    ToUndoesFrom(b[..4]);
    assert b == b[..4] + slice + rest;
  }

  lemma {:induction false} ReadWrittenId(id: string, rest: bytes)
    requires |Utf8.Encode(id)| < TWO_32
    ensures ReadId(Prefixed(Utf8.Encode(id)) + rest) == Parsed((id, rest))
  {
    ReadWritten(Utf8.Encode(id), rest);
    Utf8.DecodeUndoesEncode(id);
  }

  lemma {:induction false} WriteReadId(b: bytes)
    requires ReadId(b).Parsed?
    ensures var (id, rest) := ReadId(b).value; |Utf8.Encode(id)| < TWO_32 && Prefixed(Utf8.Encode(id)) + rest == b
  {
    WriteRead(b);
    Utf8.EncodeUndoesDecode(ReadPrefixed(b).value.0);
  }

  ghost predicate IdsFit(ids: seq<string>)
  {
    forall i :: 0 <= i < |ids| ==> |Utf8.Encode(ids[i])| < TWO_32
  }

  lemma {:induction false} ReadIdsFirst(id: string, ids: seq<string>, tail: bytes, rest: bytes)
    requires |Utf8.Encode(id)| < TWO_32 && ReadIds(tail, |ids|) == Parsed((ids, rest))
    ensures ReadIds(Prefixed(Utf8.Encode(id)) + tail, |ids| + 1) == Parsed(([id] + ids, rest))
  {
    ReadWrittenId(id, tail);
  }

  lemma {:induction false} ReadWrittenIds(ids: seq<string>, rest: bytes)
    requires IdsFit(ids)
    ensures ReadIds(PrefixedIds(ids) + rest, |ids|) == Parsed((ids, rest))
  {
    if ids == [] {
      assert [] + rest == rest;
    } else {
      var first, tail := Prefixed(Utf8.Encode(ids[0])), PrefixedIds(ids[1..]);
      ReadWrittenIds(ids[1..], rest);
      ReadIdsFirst(ids[0], ids[1..], tail + rest, rest);
      Associates(first, tail, rest);
      assert [ids[0]] + ids[1..] == ids;
    }
  }

  lemma {:induction false} WriteReadIds(b: bytes, count: nat)
    requires ReadIds(b, count).Parsed?
    ensures var (ids, rest) := ReadIds(b, count).value; |ids| == count && IdsFit(ids) && PrefixedIds(ids) + rest == b
    decreases count
  {
    if count > 0 {
      WriteReadId(b);
      var (id, afterId) := ReadId(b).value;
      WriteReadIds(afterId, count - 1);
      var (ids, rest) := ReadIds(afterId, count - 1).value;
      assert ([id] + ids)[1..] == ids;
      assert PrefixedIds([id] + ids) + rest == Prefixed(Utf8.Encode(id)) + (PrefixedIds(ids) + rest);
    }
  }

  // ----- contracts

  /** The fields of the contract fit the wire. */
  ghost predicate Fits(c: Contract)
  {
    match c
    case Connect(_, timeout, _) => timeout % NANOS == 0 && timeout / NANOS < 256
    case UpdatePingTime(duration) => duration % 1000 == 0 && duration / 1000 < TWO_64
    case SyncSslCertificates(id, cert, key) => |Utf8.Encode(id)| < TWO_32 && |cert| < TWO_32 && |key| < TWO_32
    case SyncSslCertificatesRequest(ids) => |ids| < TWO_32 && IdsFit(ids)
    case SyncSslCertificateNotFound(id) => |Utf8.Encode(id)| < TWO_32
    case _ => true
  }

  lemma {:induction false} IdWritten(t: byte, id: u32, rest: bytes)
    ensures var p := ([t] + ToLe(id, 4) + rest)[1..];
            p == ToLe(id, 4) + rest && |p| >= 4 && Id(p) == id && p[4..] == rest && ([t] + ToLe(id, 4) + rest)[0] == t
  {
    PowersOf256();
    NumberRoundTrip(id, 4);
    var p := ToLe(id, 4) + rest;
    assert ([t] + ToLe(id, 4) + rest)[1..] == p;
    assert p[..4] == ToLe(id, 4);
  }

  lemma {:induction false} TextWritten(s: string)
    ensures ReadText(Utf8.Encode(s)) == Parsed(s)
  {
    Utf8.DecodeUndoesEncode(s);
  }

  lemma {:induction false} ConnectRoundTrip(c: Contract)
    requires c.Connect? && Fits(c)
    ensures Parse(Body(c)) == Parsed(c)
  {
    var rest := [(c.timeout / NANOS % 256) as byte] + Utf8.Encode(c.remoteHost);
    assert Body(c) == [CONNECT] + ToLe(c.connectionId, 4) + rest;
    IdWritten(CONNECT, c.connectionId, rest);
    var p := Body(c)[1..];
    assert p[4] == rest[0] && p[5..] == rest[1..] == Utf8.Encode(c.remoteHost);
    TextWritten(c.remoteHost);
    assert c.timeout / NANOS * NANOS == c.timeout;
  }

  lemma {:induction false} PayloadRoundTrip(c: Contract)
    requires c.Connected? || c.ConnectionError? || c.ForwardPayload? || c.BackwardPayload?
    ensures Parse(Body(c)) == Parsed(c)
  {
    var rest := match c case ConnectionError(_, e) => Utf8.Encode(e) case ForwardPayload(_, p) => p case BackwardPayload(_, p) => p case _ => [];
    var t := Body(c)[0];
    assert Body(c) == [t] + ToLe(c.connectionId, 4) + rest;
    IdWritten(t, c.connectionId, rest);
    if c.ConnectionError? { TextWritten(c.error); }
  }

  lemma {:induction false} FileRequestRoundTrip(c: Contract)
    requires c.GetFileRequest?
    ensures Parse(Body(c)) == Parsed(c)
  {
    IdWritten(GET_FILE_REQUEST, c.requestId, Utf8.Encode(c.path));
    TextWritten(c.path);
  }

  lemma {:induction false} StatusWritten(id: u32, status: FileStatus, content: bytes)
    ensures var p := ([GET_FILE_RESPONSE] + ToLe(id, 4) + [status.AsByte()] + content)[1..];
            |p| >= 5 && Id(p) == id && p[4] == status.AsByte() && p[5..] == content
  {
    var rest := [status.AsByte()] + content;
    Associates([GET_FILE_RESPONSE] + ToLe(id, 4), [status.AsByte()], content);
    IdWritten(GET_FILE_RESPONSE, id, rest);
    assert rest[0] == status.AsByte() && rest[1..] == content;
  }

  lemma {:induction false} FileResponseRoundTrip(c: Contract)
    requires c.GetFileResponse?
    ensures Parse(Body(c)) == Parsed(c)
  {
    StatusWritten(c.requestId, c.status, c.content);
  }

  lemma {:induction false} PingRoundTrip(c: Contract)
    requires c.Ping? || c.Pong? || (c.UpdatePingTime? && Fits(c))
    ensures Parse(Body(c)) == Parsed(c)
  {
    if c.UpdatePingTime? {
      PowersOf256();
      NumberRoundTrip(c.duration / 1000, 8);
      var p := Body(c)[1..];
      assert p == ToLe(c.duration / 1000, 8) && p[..8] == p;
      assert c.duration / 1000 * 1000 == c.duration;
    }
  }

  lemma {:induction false} CertificatesWritten(id: string, cert: bytes, key: bytes)
    requires |Utf8.Encode(id)| < TWO_32 && |cert| < TWO_32 && |key| < TWO_32
    ensures ParseCertificates(Prefixed(Utf8.Encode(id)) + (Prefixed(cert) + Prefixed(key))) == Parsed(SyncSslCertificates(id, cert, key))
  {
    ReadWrittenId(id, Prefixed(cert) + Prefixed(key));
    ReadWritten(cert, Prefixed(key));
    assert Prefixed(key) + [] == Prefixed(key);
    ReadWritten(key, []);
  }

  lemma {:induction false} NotFoundWritten(id: string)
    requires |Utf8.Encode(id)| < TWO_32
    ensures ParseNotFound(Prefixed(Utf8.Encode(id))) == Parsed(SyncSslCertificateNotFound(id))
  {
    assert Prefixed(Utf8.Encode(id)) + [] == Prefixed(Utf8.Encode(id));
    ReadWrittenId(id, []);
  }

  lemma SyncBranches(t: byte, p: bytes)
    ensures t == SYNC_SSL_CERTIFICATES ==> Parse([t] + p) == ParseCertificates(p)
    ensures t == SYNC_SSL_CERTIFICATES_REQUEST ==> Parse([t] + p) == ParseRequest(p)
    ensures t == SYNC_SSL_CERTIFICATE_NOT_FOUND ==> Parse([t] + p) == ParseNotFound(p)
  {
    assert ([t] + p)[1..] == p;
  }

  lemma {:induction false} CertificateRoundTrip(c: Contract)
    requires c.SyncSslCertificates? || c.SyncSslCertificateNotFound?
    requires Fits(c)
    ensures Parse(Body(c)) == Parsed(c)
  {
    if c.SyncSslCertificates? {
      CertificatesWritten(c.certId, c.certPem, c.privateKeyPem);
      SyncBranches(SYNC_SSL_CERTIFICATES, Prefixed(Utf8.Encode(c.certId)) + (Prefixed(c.certPem) + Prefixed(c.privateKeyPem)));
    } else {
      NotFoundWritten(c.certId);
      SyncBranches(SYNC_SSL_CERTIFICATE_NOT_FOUND, Prefixed(Utf8.Encode(c.certId)));
    }
  }

  lemma {:induction false} RequestWritten(ids: seq<string>)
    requires |ids| < TWO_32 && IdsFit(ids)
    ensures ParseRequest(ToLe(|ids|, 4) + PrefixedIds(ids)) == Parsed(SyncSslCertificatesRequest(ids))
  {
    var p := ToLe(|ids|, 4) + PrefixedIds(ids);
    PowersOf256();
    NumberRoundTrip(|ids|, 4);
    assert p[..4] == ToLe(|ids|, 4);
    assert p[4..] == PrefixedIds(ids) == PrefixedIds(ids) + [];
    ReadWrittenIds(ids, []);
  }

  lemma {:induction false} RequestRoundTrip(c: Contract)
    requires c.SyncSslCertificatesRequest? && Fits(c)
    ensures Parse(Body(c)) == Parsed(c)
  {
    RequestWritten(c.certIds);
    SyncBranches(SYNC_SSL_CERTIFICATES_REQUEST, ToLe(|c.certIds|, 4) + PrefixedIds(c.certIds));
  }

  lemma {:induction false} RequestFits(p: bytes)
    requires ParseRequest(p).Parsed?
    ensures Fits(ParseRequest(p).value)
  {
    FromLeBound(p[..4]);
    WriteReadIds(p[4..], FromLe(p[..4]));
  }

  lemma {:induction false} CertificatesFit(p: bytes)
    requires ParseCertificates(p).Parsed?
    ensures Fits(ParseCertificates(p).value)
  {
    WriteReadId(p);
    var afterId := ReadId(p).value.1;
    WriteRead(afterId);
    WriteRead(ReadPrefixed(afterId).value.1);
  }

  lemma MultipleOfThousand(n: nat)
    ensures n * 1000 % 1000 == 0 && n * 1000 / 1000 == n
  {
  }

  /** What a parse accepts always fits the wire. */
  lemma {:induction false} ParsedFits(b: bytes)
    requires Parse(b).Parsed?
    ensures Fits(Parse(b).value)
  {
    var p := b[1..];
    if b[0] == SYNC_SSL_CERTIFICATES_REQUEST {
      RequestFits(p);
    } else if b[0] == SYNC_SSL_CERTIFICATES {
      CertificatesFit(p);
    } else if b[0] == SYNC_SSL_CERTIFICATE_NOT_FOUND {
      WriteReadId(p);
    } else if b[0] == UPDATE_PING_TIME {
      FromLeBound(p[..8]);
      MultipleOfThousand(FromLe(p[..8]));
    }
  }

  /** Parsing the body of a written frame gives the contract back exactly when its fields
      fit the wire. */
  lemma {:induction false} RoundTripIffFits(c: Contract)
    ensures Parse(Body(c)) == Parsed(c) <==> Fits(c)
  {
    if Parse(Body(c)) == Parsed(c) { ParsedFits(Body(c)); }
    if Fits(c) {
      match c
      case Connect(_, _, _) => ConnectRoundTrip(c);
      case Connected(_) => PayloadRoundTrip(c);
      case ConnectionError(_, _) => PayloadRoundTrip(c);
      case ForwardPayload(_, _) => PayloadRoundTrip(c);
      case BackwardPayload(_, _) => PayloadRoundTrip(c);
      case GetFileRequest(_, _) => FileRequestRoundTrip(c);
      case GetFileResponse(_, _, _) => FileResponseRoundTrip(c);
      case SyncSslCertificates(_, _, _) => CertificateRoundTrip(c);
      case SyncSslCertificateNotFound(_) => CertificateRoundTrip(c);
      case SyncSslCertificatesRequest(_) => RequestRoundTrip(c);
      case Ping => PingRoundTrip(c);
      case Pong => PingRoundTrip(c);
      case UpdatePingTime(_) => PingRoundTrip(c);
    }
  }

  ghost predicate IsSync(c: Contract)
  {
    c.SyncSslCertificates? || c.SyncSslCertificatesRequest? || c.SyncSslCertificateNotFound?
  }

  lemma TailIsPrefix(b: bytes, enc: bytes, rest: bytes)
    requires b != [] && enc + rest == b[1..]
    ensures [b[0]] + enc <= b
  {
    assert [b[0]] + (enc + rest) == b;
  }

  lemma {:induction false} NotFoundReencodes(p: bytes) returns (rest: bytes)
    requires ParseNotFound(p).Parsed?
    ensures Prefixed(Utf8.Encode(ParseNotFound(p).value.certId)) + rest == p
  {
    WriteReadId(p);
    rest := ReadId(p).value.1;
  }

  lemma SyncType(b: bytes)
    requires Parse(b).Parsed? && IsSync(Parse(b).value)
    ensures Parse(b).value.SyncSslCertificates? ==> b[0] == SYNC_SSL_CERTIFICATES && Parse(b) == ParseCertificates(b[1..])
    ensures Parse(b).value.SyncSslCertificatesRequest? ==> b[0] == SYNC_SSL_CERTIFICATES_REQUEST && Parse(b) == ParseRequest(b[1..])
    ensures Parse(b).value.SyncSslCertificateNotFound? ==> b[0] == SYNC_SSL_CERTIFICATE_NOT_FOUND && Parse(b) == ParseNotFound(b[1..])
  {
  }

  lemma {:induction false} RequestPrefix(b: bytes)
    requires b != [] && b[0] == SYNC_SSL_CERTIFICATES_REQUEST && ParseRequest(b[1..]).Parsed?
    ensures Body(ParseRequest(b[1..]).value) <= b
  {
    var c := ParseRequest(b[1..]).value;
    var rest := RequestReencodes(b[1..]);
    TailIsPrefix(b, ToLe(|c.certIds|, 4) + PrefixedIds(c.certIds), rest);
  }

  lemma {:induction false} CertificatesPrefix(b: bytes)
    requires b != [] && b[0] == SYNC_SSL_CERTIFICATES && ParseCertificates(b[1..]).Parsed?
    ensures Body(ParseCertificates(b[1..]).value) <= b
  {
    var c := ParseCertificates(b[1..]).value;
    var rest := CertificatesReencode(b[1..]);
    CertificatesBodyPrefix(b, c.certId, c.certPem, c.privateKeyPem, rest);
  }

  lemma {:induction false} CertificatesBodyPrefix(b: bytes, id: string, cert: bytes, key: bytes, rest: bytes)
    requires b != [] && b[0] == SYNC_SSL_CERTIFICATES
    requires Prefixed(Utf8.Encode(id)) + (Prefixed(cert) + Prefixed(key)) + rest == b[1..]
    ensures Body(SyncSslCertificates(id, cert, key)) <= b
  {
    TailIsPrefix(b, Prefixed(Utf8.Encode(id)) + (Prefixed(cert) + Prefixed(key)), rest);
  }

  lemma {:induction false} NotFoundPrefix(b: bytes)
    requires b != [] && b[0] == SYNC_SSL_CERTIFICATE_NOT_FOUND && ParseNotFound(b[1..]).Parsed?
    ensures Body(ParseNotFound(b[1..]).value) <= b
  {
    var c := ParseNotFound(b[1..]).value;
    var rest := NotFoundReencodes(b[1..]);
    TailIsPrefix(b, Prefixed(Utf8.Encode(c.certId)), rest);
  }

  /** On every byte string, what the certificate branches return re-encodes to the bytes
      they read, so their slices are consecutive and inside the payload. */
  lemma {:induction false} ReencodesWhatWasRead(b: bytes)
    requires Parse(b).Parsed? && IsSync(Parse(b).value)
    ensures Body(Parse(b).value) <= b
  {
    SyncType(b);
    var c := Parse(b).value;
    if c.SyncSslCertificatesRequest? {
      RequestPrefix(b);
    } else if c.SyncSslCertificates? {
      CertificatesPrefix(b);
    } else {
      NotFoundPrefix(b);
    }
  }

  lemma {:induction false} RequestReencodes(p: bytes) returns (rest: bytes)
    requires ParseRequest(p).Parsed?
    ensures ToLe(|ParseRequest(p).value.certIds|, 4) + PrefixedIds(ParseRequest(p).value.certIds) + rest == p
  {
    rest := ReadIds(p[4..], FromLe(p[..4])).value.1;
    ToUndoesFrom(p[..4]);
    WriteReadIds(p[4..], FromLe(p[..4]));
    CountAndIds(p, ToLe(FromLe(p[..4]), 4), PrefixedIds(ParseRequest(p).value.certIds), rest);
  }

  lemma CountAndIds(p: bytes, count: bytes, ids: bytes, rest: bytes)
    requires |p| >= 4 && count == p[..4] && ids + rest == p[4..]
    ensures count + ids + rest == p
  {
    Associates(count, ids, rest);
    assert p == p[..4] + p[4..];
  }

  lemma {:induction false} CertificatesReencode(p: bytes) returns (rest: bytes)
    requires ParseCertificates(p).Parsed?
    ensures var c := ParseCertificates(p).value;
            Prefixed(Utf8.Encode(c.certId)) + (Prefixed(c.certPem) + Prefixed(c.privateKeyPem)) + rest == p
  {
    WriteReadId(p);
    var afterId := ReadId(p).value.1;
    WriteRead(afterId);
    var afterCert := ReadPrefixed(afterId).value.1;
    WriteRead(afterCert);
    rest := ReadPrefixed(afterCert).value.1;
  }

  lemma {:induction false} PrefixedIdsLength(ids: seq<string>)
    ensures |PrefixedIds(ids)| >= 4 * |ids|
  {
    if ids != [] { PrefixedIdsLength(ids[1..]); }
  }

  /** A request never yields more ids than a quarter of its payload can name. */
  lemma {:induction false} IdCountBound(b: bytes)
    requires Parse(b).Parsed? && Parse(b).value.SyncSslCertificatesRequest?
    ensures |b| >= 5 && |Parse(b).value.certIds| <= (|b| - 1 - 4) / 4
  {
    ReencodesWhatWasRead(b);
    PrefixedIdsLength(Parse(b).value.certIds);
  }

  // ----- panics

  /** The fewest bytes, with the type byte, that a type is read from without a check. */
  function Needs(t: byte): (r: nat)
  {
    if t == CONNECT || t == GET_FILE_RESPONSE then 6
    else if t == UPDATE_PING_TIME then 9
    else if t == CONNECT_OK || t == CONNECTION_ERROR || t == SEND_PAYLOAD || t == RECEIVE_PAYLOAD || t == GET_FILE_REQUEST then 5
    else 1
  }

  /** A body panics exactly when it is shorter than its type is read from; the certificate
      types, pings and unknown types never do. */
  lemma {:induction false} PanicsIffShort(b: bytes)
    ensures Parse(b).Panicked? <==> b != [] && |b| < Needs(b[0])
  {
  }

  // ----- streams of frames

  function Frames(cs: seq<Contract>): (r: bytes)
  {
    if cs == [] then [] else Frame(cs[0]) + Frames(cs[1..])
  }

  ghost predicate Sendable(c: Contract) { Fits(c) && |Body(c)| < TWO_32 }

  lemma {:induction false} FirstFrame(c: Contract, rest: bytes, d: Contract, rest': bytes)
    requires Sendable(c) && Sendable(d) && Frame(c) + rest == Frame(d) + rest'
    ensures c == d && rest == rest'
  {
    ReadWritten(Body(c), rest);
    ReadWritten(Body(d), rest');
    RoundTripIffFits(c);
    RoundTripIffFits(d);
  }

  ghost predicate AllSendable(cs: seq<Contract>) { forall i :: 0 <= i < |cs| ==> Sendable(cs[i]) }

  lemma SendableTail(cs: seq<Contract>)
    requires AllSendable(cs) && cs != []
    ensures Sendable(cs[0]) && AllSendable(cs[1..]) && cs == [cs[0]] + cs[1..]
  {
  }

  /** Frames are self-delimiting: equal streams carry equal lists of contracts. */
  lemma {:induction false} FramesAreSelfDelimiting(a: seq<Contract>, b: seq<Contract>)
    requires AllSendable(a) && AllSendable(b) && Frames(a) == Frames(b)
    ensures a == b
  {
    if a != [] && b != [] {
      SendableTail(a);
      SendableTail(b);
      FirstFrame(a[0], Frames(a[1..]), b[0], Frames(b[1..]));
      FramesAreSelfDelimiting(a[1..], b[1..]);
    }
  }
}
