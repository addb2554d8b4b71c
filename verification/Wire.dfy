/** What travels over the pipe (ipcclient.c ipcclient_call, ipcserver.c
    client_worker and create_error_reply): little-endian integers, a request
    frame, and a reply frame whose size field 0 announces an error. */
module Wire {
  import opened Wrappers

  type byte = x: int | 0 <= x < 0x100
  type wchar = x: int | 0 <= x < 0x1_0000
  type bytes = seq<byte>

  // ------------------------------------------------ integers

  function Range(width: nat): nat {
    if width == 0 then 1 else 0x100 * Range(width - 1)
  }

  function LE(n: nat, width: nat): (b: bytes)
    ensures |b| == width
  {
    if width == 0 then [] else [n % 0x100] + LE(n / 0x100, width - 1)
  }

  function FromLE(b: bytes): nat {
    if b == [] then 0 else b[0] + 0x100 * FromLE(b[1..])
  }

  lemma {:induction false} LERoundTrip(n: nat, width: nat)
    requires n < Range(width)
    ensures FromLE(LE(n, width)) == n
  {
    if width > 0 {
      assert LE(n, width)[1..] == LE(n / 0x100, width - 1);
      LERoundTrip(n / 0x100, width - 1);
    }
  }

  /** n is at byte i of b, in four bytes, low byte first. */
  ghost predicate Has4(b: bytes, i: nat, n: int)
    requires i + 4 <= |b|
  {
    n == b[i] as int + b[i + 1] as int * 0x100 + b[i + 2] as int * 0x1_0000 + b[i + 3] as int * 0x100_0000
  }

  lemma LE4(n: nat)
    requires n < 0x1_0000_0000
    ensures Has4(LE(n, 4), 0, n)
  {
    FirstBytes(n, 4);
  }

  lemma LE8(n: nat)
    requires n < 0x1_0000_0000_0000_0000
    ensures Has4(LE(n, 8), 0, n % 0x1_0000_0000) && Has4(LE(n, 8), 4, n / 0x1_0000_0000)
  {
    FirstBytes(n, 8);
    LE4(n / 0x1_0000_0000);
    assert forall i :: 0 <= i < 4 ==> LE(n, 8)[4 + i] == LE(n, 8)[4..][i];
  }

  /** The lowest four bytes, and what is left. */
  lemma FirstBytes(n: nat, width: nat)
    requires width >= 4
    ensures Has4(LE(n, width), 0, n % 0x1_0000_0000) && LE(n, width)[4..] == LE(n / 0x1_0000_0000, width - 4)
  {
    hide LE;
    var n1, n2, n3 := n / 0x100, n / 0x100 / 0x100, n / 0x100 / 0x100 / 0x100;
    FirstByte(n, width);
    FirstByte(n1, width - 1);
    FirstByte(n2, width - 2);
    FirstByte(n3, width - 3);
    LowHigh(n, n1, n2, n3, n3 / 0x100);
    var b: bytes := [n % 0x100, n1 % 0x100, n2 % 0x100, n3 % 0x100];
    assert LE(n, width) == b + LE(n3 / 0x100, width - 4);
  }

  lemma LowHigh(n: nat, n1: nat, n2: nat, n3: nat, n4: nat)
    requires n1 == n / 0x100 && n2 == n1 / 0x100 && n3 == n2 / 0x100 && n4 == n3 / 0x100
    ensures n4 == n / 0x1_0000_0000
    ensures n % 0x1_0000_0000 == n % 0x100 + n1 % 0x100 * 0x100 + n2 % 0x100 * 0x1_0000 + n3 % 0x100 * 0x100_0000
  {
    var low := n % 0x100 + n1 % 0x100 * 0x100 + n2 % 0x100 * 0x1_0000 + n3 % 0x100 * 0x100_0000;
    assert n == n4 * 0x1_0000_0000 + low && 0 <= low < 0x1_0000_0000;
  }

  lemma FirstByte(n: nat, width: nat)
    requires width > 0
    ensures LE(n, width) == [n % 0x100] + LE(n / 0x100, width - 1)
  {
  }

  lemma Has4Inside(b: bytes, i: nat, part: bytes, k: nat, n: int)
    requires k + 4 <= |part| && i + |part| <= |b| && b[i..i + |part|] == part && Has4(part, k, n)
    ensures Has4(b, i + k, n)
  {
    var inside := b[i..i + |part|];
    assert inside[k] == b[i + k] && inside[k + 1] == b[i + k + 1];
    assert inside[k + 2] == b[i + k + 2] && inside[k + 3] == b[i + k + 3];
  }

  lemma Ranges()
    ensures Range(4) == 0x1_0000_0000 && Range(8) == 0x1_0000_0000_0000_0000
  {
    assert Range(1) == 0x100 && Range(2) == 0x1_0000 && Range(3) == 0x100_0000 && Range(4) == 0x1_0000_0000;
    assert Range(5) == 0x100_0000_0000 && Range(6) == 0x1_0000_0000_0000 && Range(7) == 0x100_0000_0000_0000;
  }

  predicate IsInt(n: int) {
    -0x8000_0000 <= n < 0x8000_0000
  }

  /** An int as the unsigned pattern of width bytes. */
  function Extend(n: int, width: nat): (pattern: nat)
    requires IsInt(n) && width in {4, 8}
    ensures pattern < Range(width) && Truncate(pattern) == n
    ensures pattern == if n >= 0 then n else if width == 4 then n + 0x1_0000_0000 else n + 0x1_0000_0000_0000_0000
  {
    Ranges();
    if n >= 0 then n else Range(width) + n
  }

  /** (int) of such a pattern. */
  function Truncate(n: nat): int {
    var low := n % 0x1_0000_0000;
    if low < 0x8000_0000 then low else low - 0x1_0000_0000
  }

  /** UTF-16 code units, low byte first. */
  function Wide(msg: seq<wchar>): (b: bytes)
    ensures |b| == 2 * |msg|
  {
    if msg == [] then [] else [msg[0] % 0x100, msg[0] / 0x100] + Wide(msg[1..])
  }

  function FromWide(b: bytes): (msg: seq<wchar>)
    requires |b| % 2 == 0
    ensures 2 * |msg| == |b|
  {
    if b == [] then []
    else
      var low: int, high: int := b[0], b[1];
      [low + 0x100 * high] + FromWide(b[2..])
  }

  /** Each character is two bytes, the low one first. */
  lemma {:induction false} WideAt(msg: seq<wchar>, i: nat)
    requires i < |msg|
    ensures msg[i] == Wide(msg)[2 * i] as int + Wide(msg)[2 * i + 1] as int * 0x100
  {
    if i > 0 { WideAt(msg[1..], i - 1); }
  }

  lemma {:induction false} WideRoundTrip(msg: seq<wchar>)
    ensures FromWide(Wide(msg)) == msg
  {
    if msg != [] {
      assert Wide(msg)[2..] == Wide(msg[1..]);
      WideRoundTrip(msg[1..]);
    }
  }

  // ------------------------------------------------ frames

  /** struct ipcclient_request. */
  datatype Request = Request(eventId: nat, payload: bytes) {
    ghost predicate Fits() {
      eventId < 0x1_0000_0000 && |payload| < 0x1_0000_0000
    }

    /** What ipcclient_call agrees to send. */
    predicate Sendable()
      ensures Sendable() <==> eventId > 0 && |payload| > 0
    {
      eventId != 0 && payload != []
    }
  }

  /** How a handler finished: with the buffer it filled, or with an error. */
  datatype Reply = Success(payload: bytes) | Error(typ: int, code: int, msg: seq<wchar>) {
    ghost predicate Fits() {
      match this
      case Success(p) => |p| < 0x1_0000_0000
      case Error(typ, code, msg) =>
        IsInt(typ) && IsInt(code) && 24 + 2 * |msg| < 0x1_0000_0000
    }
  }

  function EncodeRequest(r: Request): bytes {
    LE(r.eventId, 4) + LE(|r.payload|, 4) + r.payload
  }

  /** A request is its event, the size of its payload and the payload, in that
      order. */
  lemma RequestLayout(r: Request)
    requires r.eventId < 0x1_0000_0000 && |r.payload| < 0x1_0000_0000
    ensures var b := EncodeRequest(r);
            && |b| == 8 + |r.payload| && Has4(b, 0, r.eventId) && Has4(b, 4, |r.payload|) && b[8..] == r.payload
  {
    hide LE;
    var b := EncodeRequest(r);
    LE4(r.eventId);
    LE4(|r.payload|);
    Has4Inside(b, 0, LE(r.eventId, 4), 0, r.eventId);
    Has4Inside(b, 4, LE(|r.payload|, 4), 0, |r.payload|);
  }

  /** create_error_reply after its leading zero. */
  function EncodeError(typ: int, code: int, msg: seq<wchar>): bytes
    requires IsInt(typ) && IsInt(code)
  {
    LE(Extend(typ, 4), 4) + LE(Extend(code, 8), 8) + LE(|msg|, 8) + Wide(msg)
  }

  function EncodeReply(r: Reply): bytes
    requires r.Fits()
  {
    match r
    case Success(p) => LE(|p|, 4) + p
    case Error(typ, code, msg) => LE(0, 4) + EncodeError(typ, code, msg)
  }

  /** A success is its size and its payload; an error is a size of 0, the type, the
      code with its sign in eight bytes, the length of the message in eight, and
      the message. */
  lemma ReplyLayout(r: Reply)
    requires r.Fits()
    ensures var b := EncodeReply(r);
            match r
            case Success(p) => |b| == 4 + |p| && Has4(b, 0, |p|) && b[4..] == p
            case Error(typ, code, msg) =>
              && |b| == 24 + 2 * |msg| && Has4(b, 0, 0)
              && Has4(b, 4, if typ >= 0 then typ else typ + 0x1_0000_0000)
              && Has4(b, 8, if code >= 0 then code else code + 0x1_0000_0000)
              && Has4(b, 12, if code >= 0 then 0 else 0xffff_ffff)
              && Has4(b, 16, |msg|) && Has4(b, 20, 0)
              && forall i :: 0 <= i < |msg| ==> msg[i] == b[24 + 2 * i] as int + b[25 + 2 * i] as int * 0x100
  {
    match r
    case Success(p) =>
      hide LE;
      LE4(|p|);
      Has4Inside(EncodeReply(r), 0, LE(|p|, 4), 0, |p|);
    case Error(typ, code, msg) => ErrorLayout(typ, code, msg, EncodeReply(r));
  }

  /** Where the fields of an error are. */
  lemma ErrorParts(typ: int, code: int, msg: seq<wchar>, b: bytes)
    requires Error(typ, code, msg).Fits() && b == LE(0, 4) + EncodeError(typ, code, msg)
    ensures |b| == 24 + 2 * |msg| && b[..4] == LE(0, 4) && b[4..8] == LE(Extend(typ, 4), 4)
    ensures b[8..16] == LE(Extend(code, 8), 8) && b[16..24] == LE(|msg|, 8) && b[24..] == Wide(msg)
  {
    Parts(LE(0, 4), LE(Extend(typ, 4), 4), LE(Extend(code, 8), 8), LE(|msg|, 8), Wide(msg));
  }

  lemma Parts(zero: bytes, typ: bytes, code: bytes, length: bytes, msg: bytes)
    requires |zero| == |typ| == 4 && |code| == |length| == 8
    ensures var b := zero + (typ + code + length + msg);
            && |b| == 24 + |msg| && b[..4] == zero && b[4..8] == typ
            && b[8..16] == code && b[16..24] == length && b[24..] == msg
  {
    var b := zero + (typ + code + length + msg);
    assert b[..8] == zero + typ && b[8..] == code + length + msg;
    assert b[4..8] == b[..8][4..];
    assert b[8..16] == b[8..][..8] && b[16..] == b[8..][8..] == length + msg;
    assert b[16..24] == b[16..][..8] && b[24..] == b[16..][8..];
  }

  /** The halves of a code with its sign. */
  lemma SignExtends(code: int)
    requires IsInt(code)
    ensures var pattern := Extend(code, 8);
            && pattern < 0x1_0000_0000_0000_0000
            && pattern % 0x1_0000_0000 == (if code >= 0 then code else code + 0x1_0000_0000)
            && pattern / 0x1_0000_0000 == (if code >= 0 then 0 else 0xffff_ffff)
  {
    Ranges();
  }

  lemma WideInside(msg: seq<wchar>, b: bytes, k: nat)
    requires k <= |b| && b[k..] == Wide(msg)
    ensures |b| == k + 2 * |msg|
    ensures forall i :: 0 <= i < |msg| ==> msg[i] == b[k + 2 * i] as int + b[k + 1 + 2 * i] as int * 0x100
  {
    hide Wide;
    forall i | 0 <= i < |msg| ensures msg[i] == b[k + 2 * i] as int + b[k + 1 + 2 * i] as int * 0x100 {
      WideAt(msg, i);
      assert b[k..][2 * i] == b[k + 2 * i] && b[k..][2 * i + 1] == b[k + 1 + 2 * i];
    }
  }

  lemma ErrorLayout(typ: int, code: int, msg: seq<wchar>, b: bytes)
    requires Error(typ, code, msg).Fits() && b == LE(0, 4) + EncodeError(typ, code, msg)
    ensures |b| == 24 + 2 * |msg| && Has4(b, 0, 0) && Has4(b, 4, if typ >= 0 then typ else typ + 0x1_0000_0000)
    ensures Has4(b, 8, if code >= 0 then code else code + 0x1_0000_0000)
    ensures Has4(b, 12, if code >= 0 then 0 else 0xffff_ffff)
    ensures Has4(b, 16, |msg|) && Has4(b, 20, 0)
    ensures forall i :: 0 <= i < |msg| ==> msg[i] == b[24 + 2 * i] as int + b[25 + 2 * i] as int * 0x100
  {
    hide LE, Wide, Range, Truncate, Has4, EncodeError, Extend;
    Ranges();
    var t, c := Extend(typ, 4), Extend(code, 8);
    LE4(0);
    LE4(t);
    LE8(c);
    LE8(|msg|);
    SignExtends(code);
    ErrorParts(typ, code, msg, b);
    WideInside(msg, b, 24);
    assert b[0..4] == b[..4];
    Has4Inside(b, 0, LE(0, 4), 0, 0);
    Has4Inside(b, 4, LE(t, 4), 0, t);
    Has4Inside(b, 8, LE(c, 8), 0, c % 0x1_0000_0000);
    Has4Inside(b, 8, LE(c, 8), 4, c / 0x1_0000_0000);
    Has4Inside(b, 16, LE(|msg|, 8), 0, |msg|);
    Has4Inside(b, 16, LE(|msg|, 8), 4, 0);
  }

  /** The reply ipcclient_call makes of the bytes that arrive, and what it
      leaves unread; None when it would still be waiting for more. */
  function ParseReply(b: bytes): Option<(Reply, bytes)> {
    if |b| < 4 then None
    else
      var size, rest := FromLE(b[..4]), b[4..];
      if size == 0 then ParseError(rest)
      else if |rest| < size then None
      else Some((Success(rest[..size]), rest[size..]))
  }

  function ParseError(b: bytes): (r: Option<(Reply, bytes)>)
    ensures r.Some? ==> r.value.0.Error?
  {
    if |b| < 20 then None
    else
      var len := FromLE(b[12..20]);
      if |b| < 20 + 2 * len then None
      else
        var typ, code := Truncate(FromLE(b[..4])), Truncate(FromLE(b[4..12]));
        Some((Error(typ, code, FromWide(b[20..20 + 2 * len])), b[20 + 2 * len..]))
  }

  lemma ErrorRoundTrip(typ: int, code: int, msg: seq<wchar>, rest: bytes)
    requires Error(typ, code, msg).Fits()
    ensures ParseError(EncodeError(typ, code, msg) + rest) == Some((Error(typ, code, msg), rest))
  {
    hide LE, FromLE, Wide, FromWide, Range;
    var b := EncodeError(typ, code, msg) + rest;
    Ranges();
    assert b[..4] == LE(Extend(typ, 4), 4);
    assert b[4..12] == LE(Extend(code, 8), 8);
    assert b[12..20] == LE(|msg|, 8);
    LERoundTrip(Extend(typ, 4), 4);
    LERoundTrip(Extend(code, 8), 8);
    LERoundTrip(|msg|, 8);
    assert b[20..20 + 2 * |msg|] == Wide(msg);
    WideRoundTrip(msg);
    assert b[20 + 2 * |msg|..] == rest;
  }

  lemma SuccessRoundTrip(p: bytes, rest: bytes)
    requires Success(p).Fits()
    ensures ParseReply(EncodeReply(Success(p)) + rest)
            == if p == [] then ParseError(rest) else Some((Success(p), rest))
  {
    hide LE, FromLE, ParseError, Range;
    var b := EncodeReply(Success(p)) + rest;
    Ranges();
    assert b[..4] == LE(|p|, 4);
    LERoundTrip(|p|, 4);
    assert b[4..] == p + rest;
    assert (p + rest)[..|p|] == p && (p + rest)[|p|..] == rest;
  }

  /** The client understands every reply exactly as it was meant, and reads no
      byte beyond it, except for a success without payload. */
  lemma ReplyRoundTripIff(r: Reply, rest: bytes)
    requires match r
             case Success(p) => |p| < 0x1_0000_0000
             case Error(typ, code, msg) =>
               && -0x8000_0000 <= typ < 0x8000_0000 && -0x8000_0000 <= code < 0x8000_0000
               && 24 + 2 * |msg| < 0x1_0000_0000
    ensures ParseReply(EncodeReply(r) + rest) == Some((r, rest)) <==> r != Success([])
  {
    hide LE, FromLE, ParseError, EncodeError, Range;
    match r
    case Success(p) =>
      hide ParseReply, EncodeReply;
      SuccessRoundTrip(p, rest);
    case Error(typ, code, msg) =>
      var b := EncodeReply(r) + rest;
      Ranges();
      LERoundTrip(0, 4);
      assert b[..4] == LE(0, 4);
      assert b[4..] == EncodeError(typ, code, msg) + rest;
      ErrorRoundTrip(typ, code, msg, rest);
  }

  /** What the server makes of the bytes that arrive. */
  function ParseRequest(b: bytes): Option<(Request, bytes)> {
    if |b| < 8 then None
    else
      var size, rest := FromLE(b[4..8]), b[8..];
      if |rest| < size then None
      else Some((Request(FromLE(b[..4]), rest[..size]), rest[size..]))
  }

  lemma RequestRoundTrip(r: Request, rest: bytes)
    requires r.eventId < 0x1_0000_0000 && |r.payload| < 0x1_0000_0000
    ensures ParseRequest(EncodeRequest(r) + rest) == Some((r, rest))
  {
    hide LE, FromLE, Range;
    var b := EncodeRequest(r) + rest;
    Ranges();
    assert b[..4] == LE(r.eventId, 4);
    assert b[4..8] == LE(|r.payload|, 4);
    LERoundTrip(r.eventId, 4);
    LERoundTrip(|r.payload|, 4);
    assert b[8..] == r.payload + rest;
    assert (r.payload + rest)[..|r.payload|] == r.payload && (r.payload + rest)[|r.payload|..] == rest;
  }
}
