/** The byte-pipe RPC (ipccommon.c, ipcclient.c ipcclient_call, ipcserver.c
    client_worker): however the operating system cuts reads and writes into
    chunks, a call is a direct call of the handler. */
module Pipe {
  import opened Wrappers
  import opened Wire

  /** One direction of the pipe: the bytes written and not yet read. */
  class Channel {
    var data: bytes

    constructor ()
      ensures data == []
    {
      data := [];
    }

    /** ReadFile: at least one byte, at most sz, as the system sees fit. It blocks
        until there is one: late is what the other side is still to write, late'
        what of it has not arrived when the call returns. */
    method ReadFile(sz: nat, late: bytes) returns (chunk: bytes, late': bytes)
      requires sz > 0 && data + late != []
      modifies this
      ensures 0 < |chunk| <= sz && |late'| <= |late|
      ensures chunk + data + late' == old(data) + late
    {
      assert |data + late| == |data| + |late|;
      var arrived: nat :| arrived <= |late| && |data| + arrived > 0;
      late' := late[arrived..];
      ghost var was := data;
      data := data + late[..arrived];
      assert data + late' == was + late;
      var n: nat :| 1 <= n <= sz && n <= |data|;
      ghost var all := data;
      chunk, data := data[..n], data[n..];
      assert chunk + data == all;
    }

    /** WriteFile: at least one byte of what is offered. */
    method WriteFile(offered: bytes) returns (written: nat)
      requires offered != []
      modifies this
      ensures 0 < written <= |offered| && data == old(data) + offered[..written]
    {
      var n: nat :| 1 <= n <= |offered|;
      written := n;
      data := data + offered[..n];
    }
  }

  /** ipccommon_read of bytes the other side has written or, late, still writes. */
  method IpcRead(h: Channel, buf: array<byte>, sz: nat, late: bytes) returns (late': bytes)
    requires sz <= |h.data| + |late| && sz <= buf.Length
    modifies h, buf
    ensures buf[..sz] == (old(h.data) + late)[..sz] && buf[sz..] == old(buf[sz..])
    ensures h.data + late' == (old(h.data) + late)[sz..] && |late'| <= |late|
  {
    ghost var all := h.data + late;
    var b: nat, left: nat := 0, sz;
    late' := late;
    while left > 0
      invariant b + left == sz && sz <= |all| && |late'| <= |late|
      invariant h.data + late' == all[b..]
      invariant buf[..b] == all[..b] && buf[sz..] == old(buf[sz..])
    {
      var chunk;
      chunk, late' := h.ReadFile(left, late');
      assert chunk == all[b..][..|chunk|] && h.data + late' == all[b..][|chunk|..];
      forall i | 0 <= i < |chunk| { buf[b + i] := chunk[i]; }
      b, left := b + |chunk|, left - |chunk|;
    }
  }

  /** The same, once all of it is there. */
  method ReadNow(h: Channel, buf: array<byte>, sz: nat)
    requires sz <= |h.data| && sz <= buf.Length
    modifies h, buf
    ensures buf[..sz] == old(h.data[..sz]) && buf[sz..] == old(buf[sz..])
    ensures h.data == old(h.data[sz..])
  {
    assert h.data + [] == h.data;
    var late := IpcRead(h, buf, sz, []);
  }

  /** ipccommon_write. */
  method IpcWrite(h: Channel, buf: array<byte>, sz: nat)
    requires sz <= buf.Length
    modifies h
    ensures h.data == old(h.data) + buf[..sz]
  {
    var b: nat, left: nat := 0, sz;
    while left > 0
      invariant b + left == sz
      invariant h.data == old(h.data) + buf[..b]
    {
      var written := h.WriteFile(buf[b..b + left]);
      assert buf[..b] + buf[b..b + left][..written] == buf[..b + written];
      b, left := b + written, left - written;
    }
  }

  /** A temporary that holds b. */
  method Temporary(b: bytes) returns (a: array<byte>)
    ensures fresh(a) && a[..] == b
  {
    a := new byte[|b|](i requires 0 <= i < |b| => b[i]);
  }

  /** A uint32_t off the pipe. */
  method ReadUint32(h: Channel) returns (n: nat)
    requires 4 <= |h.data|
    modifies h
    ensures n == FromLE(old(h.data[..4])) && h.data == old(h.data[4..])
  {
    var t := Temporary([0, 0, 0, 0]);
    ReadNow(h, t, 4);
    n := FromLE(t[..4]);
  }

  /** mem() of a reused buffer: never smaller, contents kept. */
  method Grow(buffer: array<byte>, size: nat) returns (grown: array<byte>)
    ensures grown.Length >= size && grown.Length >= buffer.Length
    ensures grown == buffer || fresh(grown)
    ensures grown[..buffer.Length] == buffer[..]
  {
    if buffer.Length >= size { return buffer; }
    grown := new byte[size](i => 0);
    forall i | 0 <= i < buffer.Length { grown[i] := buffer[i]; }
  }

  /** client_worker and the handler it serves. The handler may answer by the
      requests it has seen before. */
  class Server {
    const c2s: Channel
    const s2c: Channel
    const handler: (seq<Request>, Request) -> Reply
    var buffer: array<byte>
    var bufferSize: nat
    var seen: seq<Request>  // what the handler was called with, in order

    constructor (c2s: Channel, s2c: Channel, handler: (seq<Request>, Request) -> Reply)
      requires c2s != s2c && forall h, r :: handler(h, r).Fits()
      ensures Valid() && seen == [] && fresh(buffer)
      ensures this.c2s == c2s && this.s2c == s2c && this.handler == handler
    {
      this.c2s, this.s2c, this.handler := c2s, s2c, handler;
      buffer := new byte[0];
      bufferSize, seen := 0, [];
    }

    ghost predicate Valid()
      reads this
    {
      && c2s != s2c && bufferSize <= buffer.Length
      && forall h, r :: handler(h, r).Fits()
    }

    /** ipcserver_context_grow_buffer. */
    method GrowBuffer(size: nat)
      requires Valid()
      modifies this`buffer, this`bufferSize
      ensures Valid() && bufferSize == size
      ensures buffer == old(buffer) || fresh(buffer)
    {
      buffer := Grow(buffer, size);
      bufferSize := size;
    }

    /** The buffer filled by a handler or by create_error_reply. */
    method Fill(b: bytes)
      requires Valid()
      modifies this`buffer, this`bufferSize, buffer
      ensures Valid() && bufferSize == |b| && buffer[..bufferSize] == b
      ensures buffer == old(buffer) || fresh(buffer)
    {
      GrowBuffer(|b|);
      forall i | 0 <= i < |b| { buffer[i] := b[i]; }
    }

    /** "receive event id", "receive request". */
    method ReceiveRequest() returns (request: Request)
      requires Valid() && ParseRequest(c2s.data).Some?
      modifies this`buffer, this`bufferSize, buffer, c2s
      ensures Valid() && ParseRequest(old(c2s.data)) == Some((request, c2s.data))
      ensures buffer == old(buffer) || fresh(buffer)
    {
      hide FromLE;
      ghost var b := c2s.data;
      var eventId := ReadUint32(c2s);
      var size := ReadUint32(c2s);
      assert b[4..][..4] == b[4..8] && b[4..][4..] == b[8..];
      GrowBuffer(size);
      ReadNow(c2s, buffer, size);
      request := Request(eventId, buffer[..size]);
    }

    /** "send response". */
    method SendReply(reply: Reply)
      requires Valid() && reply.Fits()
      modifies this`buffer, this`bufferSize, buffer, s2c
      ensures Valid() && s2c.data == old(s2c.data) + EncodeReply(reply)
      ensures buffer == old(buffer) || fresh(buffer)
    {
      match reply {
        case Error(typ, code, msg) =>
          Fill(LE(0, 4) + EncodeError(typ, code, msg));
          IpcWrite(s2c, buffer, bufferSize);
        case Success(payload) =>
          Fill(payload);
          var t := Temporary(LE(bufferSize, 4));
          IpcWrite(s2c, t, 4);
          IpcWrite(s2c, buffer, bufferSize);
          assert t[..4] == t[..];
      }
    }

    /** One turn of the client_worker loop for request r. */
    method ServeOne(ghost r: Request)
      requires Valid() && r.Fits() && c2s.data == EncodeRequest(r)
      modifies this`buffer, this`bufferSize, this`seen, buffer, c2s, s2c
      ensures Valid() && c2s.data == [] && seen == old(seen) + [r]
      ensures s2c.data == old(s2c.data) + EncodeReply(handler(old(seen), r))
      ensures buffer == old(buffer) || fresh(buffer)
    {
      hide EncodeRequest, EncodeReply, ParseRequest;
      RequestRoundTrip(r, []);
      assert EncodeRequest(r) + [] == EncodeRequest(r);
      var request := ReceiveRequest();
      var reply := handler(seen, request);
      seen := seen + [request];
      SendReply(reply);
    }
  }

  /** What ipcclient_call returns: its own refusal, or the server's reply. */
  datatype Outcome = InvalidArgument | Replied(reply: Reply)

  /** struct ipcclient. */
  class Client {
    const c2s: Channel
    const s2c: Channel
    var buffer: array<byte>

    constructor (c2s: Channel, s2c: Channel)
      ensures this.c2s == c2s && this.s2c == s2c && fresh(buffer)
    {
      this.c2s, this.s2c := c2s, s2c;
      buffer := new byte[0];
    }

    /** ipcclient_grow_buffer. */
    method GrowBuffer(size: nat)
      modifies this`buffer
      ensures buffer.Length >= size && (buffer == old(buffer) || fresh(buffer))
    {
      buffer := Grow(buffer, size);
    }

    /** The sending half of ipcclient_call. */
    method Send(req: Request)
      requires req.Fits()
      modifies c2s
      ensures c2s.data == old(c2s.data) + EncodeRequest(req)
    {
      var header := Temporary(LE(req.eventId, 4) + LE(|req.payload|, 4));
      IpcWrite(c2s, header, 8);
      var ptr := Temporary(req.payload);
      IpcWrite(c2s, ptr, ptr.Length);
      assert header[..8] == header[..];
      assert ptr[..ptr.Length] == req.payload;
    }

    /** "receive error". */
    method ReceiveError() returns (reply: Reply)
      requires ParseError(s2c.data).Some?
      modifies s2c
      ensures ParseError(old(s2c.data)) == Some((reply, s2c.data))
    {
      ghost var b := s2c.data;
      var buf := Temporary(seq(20, i => 0));
      ReadNow(s2c, buf, 20);
      assert buf[..20] == buf[..] == b[..20];
      assert buf[..4] == b[..4] && buf[4..12] == b[4..12] && buf[12..20] == b[12..20];
      var typ := Truncate(FromLE(buf[..4]));
      var code := Truncate(FromLE(buf[4..12]));
      var len := FromLE(buf[12..20]);
      var msg: seq<wchar> := [];
      if len > 0 {
        var ptr := Temporary(seq(2 * len, i => 0));
        ReadNow(s2c, ptr, 2 * len);
        assert ptr[..2 * len] == b[20..][..2 * len] == b[20..20 + 2 * len];
        msg := FromWide(ptr[..2 * len]);
      } else {
        assert b[20..20 + 2 * len] == [];
      }
      assert b[20..][2 * len..] == b[20 + 2 * len..];
      reply := Error(typ, code, msg);
    }

    /** The receiving half of ipcclient_call. */
    method Receive() returns (reply: Reply)
      requires ParseReply(s2c.data).Some?
      modifies this`buffer, buffer, s2c
      ensures ParseReply(old(s2c.data)) == Some((reply, s2c.data))
      ensures buffer == old(buffer) || fresh(buffer)
    {
      ghost var b := s2c.data;
      var size := ReadUint32(s2c);
      if size == 0 {
        reply := ReceiveError();
        return;
      }
      GrowBuffer(size);
      ReadNow(s2c, buffer, size);
      reply := Success(buffer[..size]);
    }

    /** ipcclient_call, the server taking its turn while the client waits for
        the reply: the handler sees exactly this request, the client gets
        exactly its reply, and both directions are empty again. */
    method Call(req: Request, server: Server) returns (outcome: Outcome)
      requires server.Valid() && server.c2s == c2s && server.s2c == s2c && server.buffer != buffer
      requires c2s.data == [] && s2c.data == []
      requires req.eventId < 0x1_0000_0000 && |req.payload| < 0x1_0000_0000
      requires forall h, r :: server.handler(h, r) != Success([])
      modifies this`buffer, buffer, c2s, s2c, server, server.buffer
      ensures server.Valid() && server.buffer != buffer
      ensures c2s.data == [] && s2c.data == []
      ensures server.buffer == old(server.buffer) || fresh(server.buffer)
      ensures buffer == old(buffer) || fresh(buffer)
      ensures req.eventId == 0 || |req.payload| == 0 ==>
                outcome == InvalidArgument && server.seen == old(server.seen)
      ensures req.eventId != 0 && |req.payload| > 0 ==>
                && server.seen == old(server.seen) + [req]
                && outcome == Replied(server.handler(old(server.seen), req))
    {
      hide EncodeRequest, EncodeReply, ParseReply;
      if !req.Sendable() { return InvalidArgument; }
      Send(req);
      assert c2s.data == EncodeRequest(req);
      server.ServeOne(req);
      ghost var meant := server.handler(old(server.seen), req);
      ReplyRoundTripIff(meant, []);
      assert s2c.data == EncodeReply(meant) + [];
      var reply := Receive();
      return Replied(reply);
    }
  }

  // ------------------------------------------------ whole conversations

  /** Direct calls of a handler: the replies, request by request. */
  function Direct(handler: (seq<Request>, Request) -> Reply, seen: seq<Request>, requests: seq<Request>): seq<Reply>
    decreases |requests|
  {
    if requests == [] then [] else
      [handler(seen, requests[0])] + Direct(handler, seen + [requests[0]], requests[1..])
  }

  lemma {:induction false} DirectExtends(
    handler: (seq<Request>, Request) -> Reply, seen: seq<Request>, requests: seq<Request>, r: Request)
    ensures Direct(handler, seen, requests + [r]) == Direct(handler, seen, requests) + [handler(seen + requests, r)]
    decreases |requests|
  {
    if requests == [] {
      assert requests + [r] == [r] && seen + requests == seen;
    } else {
      DirectExtends(handler, seen + [requests[0]], requests[1..], r);
      assert (requests + [r])[1..] == requests[1..] + [r];
      assert seen + [requests[0]] + requests[1..] == seen + requests;
    }
  }

  /** A conversation over the pipe is the sequence of direct calls. */
  method Converse(client: Client, server: Server, requests: seq<Request>) returns (replies: seq<Reply>)
    requires server.Valid() && server.c2s == client.c2s && server.s2c == client.s2c && server.buffer != client.buffer
    requires client.c2s.data == [] && client.s2c.data == []
    requires forall i :: 0 <= i < |requests| ==>
               0 < requests[i].eventId < 0x1_0000_0000 && 0 < |requests[i].payload| < 0x1_0000_0000
    requires forall h, r :: server.handler(h, r) != Success([])
    modifies client, client.buffer, client.c2s, client.s2c, server, server.buffer
    ensures server.seen == old(server.seen) + requests
    ensures replies == Direct(server.handler, old(server.seen), requests)
    ensures client.c2s.data == [] && client.s2c.data == []
  {
    replies := [];
    for i := 0 to |requests|
      invariant server.Valid() && server.buffer != client.buffer
      invariant server.buffer == old(server.buffer) || fresh(server.buffer)
      invariant client.buffer == old(client.buffer) || fresh(client.buffer)
      invariant client.c2s.data == [] && client.s2c.data == []
      invariant server.seen == old(server.seen) + requests[..i]
      invariant replies == Direct(server.handler, old(server.seen), requests[..i])
    {
      var outcome := client.Call(requests[i], server);
      DirectExtends(server.handler, old(server.seen), requests[..i], requests[i]);
      assert requests[..i + 1] == requests[..i] + [requests[i]];
      replies := replies + [outcome.reply];
    }
    assert requests[..|requests|] == requests;
  }
}
