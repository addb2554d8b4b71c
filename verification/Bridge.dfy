/** The bridge to the reader process: its handle table, the shared memory that
    carries what was read, and the restart after a crash (bridgeclient.c,
    bridgeserver.c). A remote call is a direct call of the server's handler, as
    module Pipe shows, or fails because the server is gone. */
module Bridge {
  import opened Wrappers
  import Wire

  type bytes = Wire.bytes

  /** What the reader knows about a file: bytes per picture and per sample. */
  datatype Info = Info(frameSize: nat, sampleSize: nat) {
    /** Bytes a request may need: a picture, or length samples. */
    function Needed(length: nat): nat {
      if length == 0 then frameSize else length * sampleSize
    }

    /** Bytes that written stands for: bytes of a picture, or samples. */
    function Size(length: nat, written: nat): nat {
      if length == 0 then written else sampleSize * written
    }
  }

  /** What func_read_video_ex or func_read_audio_ex leaves in the mapped memory,
      and returns. */
  datatype Produced = Produced(data: bytes, written: nat)

  /** What the reader would produce, by path, start and length. */
  type Reading = (string, int, nat) -> Produced

  /** It writes as much as it says, and no more than the request may need. */
  ghost predicate Honest(files: string -> Info, read: Reading) {
    forall p: string, s: int, n: nat ::
      var Info(frameSize, sampleSize) := files(p);
      var Produced(data, written) := read(p, s, n);
      if n == 0 then |data| == written <= frameSize else |data| == sampleSize * written <= n * sampleSize
  }

  lemma HonestSizes(files: string -> Info, read: Reading)
    requires Honest(files, read)
    ensures forall p: string, s: int, n: nat ::
              |read(p, s, n).data| == files(p).Size(n, read(p, s, n).written) <= files(p).Needed(n)
  {
  }

  /** What func_open_ex and func_info_get do with a file: refuse it, open it
      without being able to describe it, or open it. */
  datatype Opening = Refused | Undescribed | Described

  /** A file mapping object. It lives while the client or the server has a
      handle to it, and its name is taken as long. */
  class Fmo {
    const name: string
    const size: nat
    var data: bytes

    constructor (name: string, size: nat)
      ensures this.name == name && this.size == size && |data| == size
    {
      this.name, this.size := name, size;
      data := seq(size, i => 0);
    }
  }

  /** The name a mapping object keeps taken. */
  function Held(fmo: Fmo?): set<string> {
    if fmo == null then {} else {fmo.name}
  }

  /** The first of the five names proposed that is not taken. */
  function FirstFree(hints: nat -> string, taken: set<string>, retry: nat): Option<string>
    decreases 5 - retry
  {
    if retry >= 5 then None
    else if hints(retry) !in taken then Some(hints(retry))
    else FirstFree(hints, taken, retry + 1)
  }

  // ------------------------------------------------ the server

  /** There is always an address that is neither NULL nor in use. */
  lemma {:induction false} FreeBlock(used: set<nat>) returns (bound: nat)
    ensures forall n :: n in used ==> n < bound
    ensures bound != 0 && bound !in used
  {
    bound := 1;
    if used != {} {
      var n :| n in used;
      bound := FreeBlock(used - {n});
      assert used == used - {n} + {n};
      if bound <= n { bound := n + 1; }
    }
  }

  /** What a read request is answered with. */
  datatype ReadReply = ReadFailed | ReadDone(written: nat, fmoName: string)

  /** The reader process. */
  class Server {
    const files: string -> Info
    var alive: bool
    var handles: map<nat, string>  // open handles, by the path they were opened on
    var fmo: Fmo?                  // g_fmo
    var fmoBytes: nat              // g_fmo_bytes
    var fmoName: string            // g_fmo_name

    constructor (files: string -> Info)
      ensures Valid() && alive && this.files == files && handles == map[] && fmo == null
    {
      this.files := files;
      alive, handles, fmo, fmoBytes, fmoName := true, map[], null, 0, "";
    }

    ghost predicate Valid()
      reads this, fmo
    {
      && (fmo == null ==> fmoBytes == 0)
      && (fmo != null ==> fmo.name == fmoName && |fmo.data| == fmo.size == fmoBytes > 0)
      && (!alive ==> handles == map[] && fmo == null)
      && 0 !in handles
    }

    /** The process dies: the system closes everything it had open. */
    method Crash()
      requires Valid()
      modifies this
      ensures Valid() && !alive
    {
      alive, handles, fmo, fmoBytes, fmoName := false, map[], null, 0, "";
    }

    /** ipc_handler_open. The id is the address of a new block. A file that
        opens but cannot be described makes the server read through NULL. */
    method HandleOpen(path: string, opening: Opening) returns (id: Option<nat>)
      requires Valid() && alive
      modifies this
      ensures Valid() && (alive <==> opening != Undescribed)
      ensures id.Some? <==> opening == Described
      ensures id.Some? ==> id.value != 0 && id.value !in old(handles) && handles == old(handles)[id.value := path]
      ensures opening == Refused ==> handles == old(handles)
      ensures alive ==> unchanged(`fmo)
    {
      match opening {
        case Refused => id := None;
        case Undescribed =>
          Crash();
          id := None;
        case Described =>
          ghost var free := FreeBlock(handles.Keys);
          var block: nat :| block != 0 && block !in handles;
          handles := handles[block := path];
          id := Some(block);
      }
    }

    /** ipc_handler_close; closes says whether func_close succeeds. */
    method HandleClose(id: nat, closes: bool) returns (ok: bool)
      requires Valid() && alive && id in handles
      modifies `handles
      ensures Valid() && ok == closes
      ensures handles == if ok then old(handles) - {id} else old(handles)
    {
      ok := closes;
      if ok { handles := handles - {id}; }
    }

    /** create_fmo: the first of five proposed names that is not taken. */
    method CreateFmo(size: nat, hints: nat -> string, taken: set<string>) returns (created: Fmo?)
      requires size > 0
      ensures created != null ==>
                && fresh(created) && created.size == |created.data| == size && created.name !in taken
                && exists k: nat :: k < 5 && created.name == hints(k) && forall j: nat :: j < k ==> hints(j) in taken
      ensures created == null ==> forall k: nat :: k < 5 ==> hints(k) in taken
      ensures FirstFree(hints, taken, 0) == if created == null then None else Some(created.name)
    {
      var retry := 0;
      while true
        invariant retry < 5 && forall j: nat :: j < retry ==> hints(j) in taken
        invariant FirstFree(hints, taken, 0) == FirstFree(hints, taken, retry)
        decreases 5 - retry
      {
        if hints(retry) !in taken {
          created := new Fmo(hints(retry), size);
          return;
        }
        retry := retry + 1;
        if retry >= 5 { return null; }
      }
    }

    /** The name of the object a read of that many bytes is answered with. */
    ghost function ObjectFor(bytes: nat, hints: nat -> string, taken: set<string>): Option<string>
      reads this
    {
      if fmoBytes < bytes then FirstFree(hints, taken + Held(fmo), 0)
      else if fmo == null then None else Some(fmo.name)
    }

    /** ipc_handler_read; taken are the names of mapping objects that others
        keep alive. */
    method HandleRead(id: nat, start: int, length: nat, read: Reading, hints: nat -> string, taken: set<string>)
      returns (reply: ReadReply)
      requires Valid() && alive && id in handles && Honest(files, read)
      modifies this`fmo, this`fmoBytes, this`fmoName, fmo
      ensures Valid()
      ensures fmo == old(fmo) || (fmo != null && fresh(fmo) && fmo.name !in taken)
      ensures old(fmo) != null && fmo != old(fmo) ==> unchanged(old(fmo))
      ensures reply.ReadDone? ==>
                var produced := read(handles[id], start, length);
                && fmo != null && reply == ReadDone(produced.written, fmo.name)
                && produced.data <= fmo.data
      ensures old(ObjectFor(files(handles[id]).Needed(length), hints, taken))
           == if reply.ReadFailed? then None else Some(reply.fmoName)
      ensures var Info(frameSize, sampleSize) := files(handles[id]);
              var needed := if length == 0 then frameSize else length * sampleSize;
              if needed <= old(fmoBytes) then fmo == old(fmo) && (reply.ReadFailed? <==> fmo == null)
              else reply.ReadFailed? || (fmo != old(fmo) && fmo.size == needed)
      ensures reply.ReadFailed? ==> fmo == old(fmo) && fmoBytes == old(fmoBytes)
      ensures reply.ReadDone? ==>
                fmoBytes == if old(fmoBytes) < files(handles[id]).Needed(length) then files(handles[id]).Needed(length)
                            else old(fmoBytes)
    {
      var bytes := files(handles[id]).Needed(length);
      if fmoBytes < bytes {
        var created := CreateFmo(bytes, hints, taken + Held(fmo));
        if created == null { return ReadFailed; }
        fmo, fmoBytes, fmoName := created, bytes, created.name;
      }
      if fmo == null { return ReadFailed; }
      var produced := read(handles[id], start, length);
      fmo.data := produced.data + fmo.data[|produced.data|..];
      return ReadDone(produced.written, fmoName);
    }
  }

  // ------------------------------------------------ the client

  /** enum running_state. */
  datatype State = Unknown | Booting | Running | Exiting

  datatype Errno = Success | Einval | Eio | Enomem

  /** Which local step of opening fails, if any: the block, the copy of the
      path, or the insertion into the table. */
  datatype Local = Fine | NoBlock | NoCopy | NoEntry

  /** What the user and the system do about a dead reader. */
  datatype Recovery = Cancelled | NotStarted | Started(openings: string -> Opening, diesAfterwards: bool)

  /** A file as the host holds it. */
  class Handle {
    const filepath: string
    const info: Info
    var id: nat

    constructor (filepath: string, info: Info, id: nat)
      ensures this.filepath == filepath && this.info == info && this.id == id
    {
      this.filepath, this.info, this.id := filepath, info, id;
    }
  }

  /** The id each client handle has at the moment. */
  ghost function Ids(handles: set<Handle>): map<Handle, nat>
    reads handles
  {
    map h | h in handles :: h.id
  }

  /** Every client handle is a server handle on the same path, each its own. */
  ghost predicate Bound(ids: map<Handle, nat>, open: map<nat, string>) {
    && (forall h <- ids :: ids[h] in open && open[ids[h]] == h.filepath)
    && (forall h, k :: h in ids && k in ids && ids[h] == ids[k] ==> h == k)
  }

  /** And the server has no others. */
  ghost predicate Covers(ids: map<Handle, nat>, open: map<nat, string>) {
    open.Keys <= ids.Values
  }

  lemma NoIds(open: map<nat, string>)
    requires open == map[]
    ensures Bound(Ids({}), open) && Covers(Ids({}), open)
  {
  }

  lemma AddId(handles: set<Handle>, h: Handle)
    requires h !in handles
    ensures Ids(handles + {h}) == Ids(handles)[h := h.id] && h !in Ids(handles)
  {
  }

  lemma RemoveId(handles: set<Handle>, h: Handle)
    requires h in handles
    ensures h in Ids(handles) && Ids(handles)[h] == h.id
    ensures Ids(handles - {h}) == Ids(handles) - {h}
  {
  }

  lemma FindBound(handles: set<Handle>, open: map<nat, string>, h: Handle)
    requires Bound(Ids(handles), open) && h in handles
    ensures h.id in open && open[h.id] == h.filepath
  {
    assert Ids(handles)[h] == h.id;
  }

  lemma Bind(ids: map<Handle, nat>, open: map<nat, string>, h: Handle, id: nat)
    requires Bound(ids, open) && h !in ids && id !in open
    ensures Bound(ids[h := id], open[id := h.filepath])
    ensures Covers(ids, open) ==> Covers(ids[h := id], open[id := h.filepath])
  {
    var ids' := ids[h := id];
    assert ids'[h] == id;
    forall x | x in ids.Values ensures x in ids'.Values {
      var k: Handle :| k in ids && ids[k] == x;
      assert ids'[k] == x;
    }
  }

  lemma Unbind(ids: map<Handle, nat>, open: map<nat, string>, h: Handle)
    requires Bound(ids, open) && h in ids
    ensures Bound(ids - {h}, open - {ids[h]})
    ensures Covers(ids, open) ==> Covers(ids - {h}, open - {ids[h]})
  {
    var ids' := ids - {h};
    forall x | x in ids.Values && x != ids[h] ensures x in ids'.Values {
      var k: Handle :| k in ids && ids[k] == x;
      assert ids'[k] == x;
    }
  }

  lemma Leak(ids: map<Handle, nat>, open: map<nat, string>, id: nat, path: string)
    requires Bound(ids, open) && id !in open
    ensures Bound(ids, open[id := path]) && !Covers(ids, open[id := path])
    ensures open[id := path] - {id} == open
  {
    assert id in open[id := path];
    assert id !in ids.Values;
  }

  // ------------------------------------------------ what an event does

  /** What can be told of the bridge at one moment. */
  datatype Snapshot = Snapshot(
    state: State,
    connected: bool,           // to a reader that is alive
    exact: bool,               // which has nothing open that the client has no handle to
    handles: set<Handle>,
    fmoName: string,           // the client's cached name
    fmoOpen: bool,             // and whether it got hold of the object
    bytes: nat,                // the reader's mapping object: its size
    shared: Option<string>)    // and its name
  {
    /** The names that the client and the reader keep taken. */
    function Taken(): set<string> {
      (if fmoOpen then {fmoName} else {}) + if shared.Some? then {shared.value} else {}
    }

    /** The object a read of that many bytes is answered with. */
    function ObjectFor(needed: nat, hints: nat -> string, others: set<string>): Option<string> {
      if bytes < needed then FirstFree(hints, others + Taken(), 0) else shared
    }

    function Disconnected(): Snapshot {
      this.(connected := false, exact := true, bytes := 0, shared := None)
    }
  }

  /** EINVAL unless the plugin is running, EIO if the reader cannot be asked, does
      not give the file, or the path cannot be copied, and ENOMEM for the block and
      the table. */
  function OpenResult(seen: State, connected: bool, opening: Opening, local: Local): (eno: Errno)
    ensures eno == Einval <==> seen != Running
    ensures eno == Eio <==>
              seen == Running && (!connected || opening != Described || local == NoCopy)
    ensures eno == Enomem <==>
              seen == Running && connected && opening == Described && (local == NoBlock || local == NoEntry)
  {
    if seen != Running then Einval
    else if !connected || opening != Described then Eio
    else
      match local
      case Fine => Success
      case NoBlock => Enomem
      case NoCopy => Eio
      case NoEntry => Enomem
  }

  /** ffmpeg_input_open_ex: the handle is in the table exactly on success, and
      one is leaked in the reader exactly when undoing fails. */
  ghost predicate OpenStep(
    before: Snapshot, seen: State, path: string, opening: Opening, local: Local, undoes: bool,
    eno: Errno, handle: Handle?, after: Snapshot)
  {
    var served := seen == Running && before.connected;
    && eno == OpenResult(seen, before.connected, opening, local) && (eno == Success <==> handle != null)
    && (handle != null ==> handle !in before.handles && handle.filepath == path)
    && (before.exact ==> (after.exact <==> !(served && opening == Described && local != Fine && !undoes)))
    && after == (if served && opening == Undescribed then before.Disconnected() else before).(
         handles := before.handles + (if handle == null then {} else {handle}), exact := after.exact)
  }

  /** ffmpeg_input_close: the handle leaves both tables or neither. */
  ghost predicate CloseStep(before: Snapshot, seen: State, h: Handle, closes: bool, ok: bool, after: Snapshot) {
    && (ok <==> seen == Running && before.connected && closes)
    && (before.exact ==> after.exact)
    && after == before.(handles := before.handles - (if ok then {h} else {}), exact := after.exact)
  }

  /** call_read: data comes back exactly when the reader answers and the client
      has, or can still get, hold of the object the answer names; it is what the
      reader produced for this request on the handle's file. */
  ghost predicate ReadStep(
    before: Snapshot, seen: State, h: Handle, start: int, length: nat, read: Reading,
    hints: nat -> string, others: set<string>, dies: bool, data: Option<bytes>, after: Snapshot)
  {
    if !(seen == Running && before.connected) then data == None && after == before
    else
      var needed := h.info.Needed(length);
      var shared := before.ObjectFor(needed, hints, others);
      && (before.exact ==> after.exact)
      && data == (if shared.Some? && (if before.fmoName == shared.value then before.fmoOpen else !dies)
                  then Some(read(h.filepath, start, length).data) else None)
      && var answered :=
           if shared == None then before
           else before.(fmoName := shared.value, shared := shared,
                        fmoOpen := if before.fmoName == shared.value then before.fmoOpen else !dies,
                        bytes := if before.bytes < needed then needed else before.bytes);
         after == (if dies then answered.Disconnected() else answered).(exact := after.exact)
  }

  /** process_finished: serving again exactly when a reader was started and every
      file opened in it. */
  ghost predicate FinishStep(before: Snapshot, recovery: Recovery, after: Snapshot) {
    match before.state
    case Unknown => after == before
    case Exiting => after == before
    case Booting => after == before.(state := Exiting)
    case Running =>
      var back := recovery.Started? && forall h :: h in before.handles ==> recovery.openings(h.filepath) == Described;
      after == before.Disconnected().(
        connected := back && !recovery.diesAfterwards,
        state := if back then Running else if recovery == Cancelled then Exiting else Unknown)
  }

  /** The globals of bridgeclient.c. */
  class Client {
    const files: string -> Info
    var state: State         // g_running_state
    var ipcc: Server?        // g_ipcc and g_process
    var handles: set<Handle> // g_handles
    var fmo: Fmo?            // g_fmo
    var fmoName: string      // g_fmo_name

    /** ffmpeg_input_init. */
    constructor (files: string -> Info, starts: bool)
      ensures Valid() && this.files == files
      ensures Snap() == Snapshot(if starts then Running else Unknown, starts, true, {}, "", false, 0, None)
      ensures fresh(Repr() - {this})
    {
      this.files, handles, fmo, fmoName := files, {}, null, "";
      if starts {
        var server := new Server(files);
        ipcc, state := server, Running;
      } else {
        ipcc, state := null, Unknown;
      }
    }

    ghost function Repr(): set<object>
      reads this, ipcc
    {
      {this} + handles + (if ipcc == null then {} else {ipcc} + if ipcc.fmo == null then {} else {ipcc.fmo})
      + if fmo == null then {} else {fmo}
    }

    /** A connection to a reader that is alive. */
    ghost predicate Connected()
      reads this, ipcc
    {
      ipcc != null && ipcc.alive
    }

    /** What holds whenever the handle lock is free. */
    ghost predicate Valid()
      reads this, Repr()
    {
      && (state == Running ==> ipcc != null)
      && (ipcc != null ==> ipcc.Valid() && ipcc.files == files)
      && (Connected() ==> Bound(Ids(handles), ipcc.handles))
      && (forall h :: h in handles ==> h.info == files(h.filepath))
      && (fmo != null ==> fmo.name == fmoName && |fmo.data| == fmo.size)
      && (fmo != null && ipcc != null && ipcc.fmo != null && ipcc.fmo.name == fmoName ==> fmo == ipcc.fmo)
    }

    /** The reader has nothing open that the client has no handle to. */
    ghost predicate Exact()
      reads this, Repr()
    {
      Connected() ==> Covers(Ids(handles), ipcc.handles)
    }

    ghost function Snap(): Snapshot
      reads this, Repr()
    {
      Snapshot(state, Connected(), Exact(), handles, fmoName, fmo != null,
               if Connected() then ipcc.fmoBytes else 0,
               if Connected() && ipcc.fmo != null then Some(ipcc.fmo.name) else None)
    }

    /** The reader dies on its own. */
    method Die()
      requires Valid()
      modifies ipcc
      ensures Valid() && Repr() <= old(Repr())
      ensures Snap() == old(Snap()).Disconnected()
    {
      if ipcc != null { ipcc.Crash(); }
    }

    /** ffmpeg_input_open_ex. seen is the state as it was read before the lock
        was taken; undoes says whether a close on the way out succeeds. */
    method Open(seen: State, path: string, opening: Opening, local: Local, undoes: bool)
      returns (eno: Errno, handle: Handle?)
      requires Valid()
      modifies this`handles, ipcc
      ensures Valid() && fresh(Repr() - old(Repr()))
      ensures handle != null ==> fresh(handle)
      ensures OpenStep(old(Snap()), seen, path, opening, local, undoes, eno, handle, Snap())
    {
      hide Ids, Bound, Covers, FirstFree, Snapshot.Taken;
      handle := null;
      if seen != Running { return Einval, null; }
      if ipcc == null || !ipcc.alive { return Eio, null; }
      ghost var ids, open := Ids(handles), ipcc.handles;
      var id := ipcc.HandleOpen(path, opening);
      if id == None { return Eio, null; }
      Leak(ids, open, id.value, path);
      eno, handle := Admit(path, id.value, local, undoes, open);
    }

    /** ffmpeg_input_open_ex once the reader has opened the file as id; open is
        what it had open before. */
    method Admit(path: string, id: nat, local: Local, undoes: bool, ghost open: map<nat, string>)
      returns (eno: Errno, handle: Handle?)
      requires Valid() && Connected() && id !in open && ipcc.handles == open[id := path] && Bound(Ids(handles), open)
      modifies this`handles, ipcc`handles
      ensures Valid() && fresh(Repr() - old(Repr())) && (handle != null ==> fresh(handle) && handle.filepath == path)
      ensures eno == OpenResult(Running, true, Described, local) && (handle != null <==> local == Fine)
      ensures handles == old(handles) + if handle == null then {} else {handle}
      ensures unchanged(`state) && unchanged(`fmo) && unchanged(`fmoName) && ipcc == old(ipcc) && ipcc.alive
      ensures old(Covers(Ids(handles), open)) ==> (Exact() <==> local == Fine || undoes)
    {
      hide Ids, Bound, Covers;
      handle := null;
      Leak(Ids(handles), open, id, path);
      if local == Fine {
        handle := new Handle(path, files(path), id);
        handles := handles + {handle};
        AddId(old(handles), handle);
        Bind(old(Ids(handles)), open, handle, id);
        return Success, handle;
      }
      eno := if local == NoCopy then Eio else Enomem;
      var _ := ipcc.HandleClose(id, undoes);
    }

    /** ffmpeg_input_close. */
    method Close(seen: State, h: Handle, closes: bool) returns (ok: bool)
      requires Valid() && h in handles
      modifies this`handles, ipcc
      ensures Valid() && Repr() <= old(Repr())
      ensures CloseStep(old(Snap()), seen, h, closes, ok, Snap())
    {
      hide Ids, Bound, Covers;
      if seen != Running || ipcc == null || !ipcc.alive { return false; }
      FindBound(handles, ipcc.handles, h);
      RemoveId(handles, h);
      Unbind(Ids(handles), ipcc.handles, h);
      ok := ipcc.HandleClose(h.id, closes);
      if ok { handles := handles - {h}; }
    }

    /** call_read and its two callers. The reader may die after it has
        answered (dies). */
    method Read(seen: State, h: Handle, start: int, length: nat, read: Reading,
                hints: nat -> string, others: set<string>, dies: bool)
      returns (data: Option<bytes>)
      requires Valid() && h in handles && Honest(files, read)
      modifies this`fmo, this`fmoName, ipcc, if ipcc == null then null else ipcc.fmo
      ensures Valid() && fresh(Repr() - old(Repr()))
      ensures ReadStep(old(Snap()), seen, h, start, length, read, hints, others, dies, data, Snap())
    {
      hide Ids, Bound, Covers, FirstFree, Honest, Info.Needed, Info.Size;
      HonestSizes(files, read);
      data := None;
      if seen != Running || ipcc == null || !ipcc.alive { return; }
      FindBound(handles, ipcc.handles, h);
      ghost var before, needed := Snap(), h.info.Needed(length);
      assert others + Held(fmo) + Held(ipcc.fmo) == others + before.Taken();
      assert ipcc.ObjectFor(needed, hints, others + Held(fmo)) == before.ObjectFor(needed, hints, others);
      var r := ipcc.HandleRead(h.id, start, length, read, hints, others + Held(fmo));
      ghost var answered := ipcc.fmo;
      ghost var produced := read(h.filepath, start, length);
      assert |produced.data| == h.info.Size(length, produced.written);
      assert r.ReadDone? ==> produced.data == answered.data[..|produced.data|];
      if dies { ipcc.Crash(); }
      if r.ReadFailed? { return; }
      data := CopyReply(r, h.info.Size(length, r.written), answered);
    }

    /** The end of call_read: get hold of the object that the reply names, unless
        that is the name already, and copy from it. answered is that object, which
        may be gone by now. */
    method CopyReply(r: ReadReply, bytes: nat, ghost answered: Fmo) returns (data: Option<bytes>)
      requires r.ReadDone? && ipcc != null && answered.name == r.fmoName && bytes <= answered.size == |answered.data|
      requires fmo != null && fmoName == r.fmoName ==> fmo == answered
      requires ipcc.fmo != null && ipcc.fmo.name == r.fmoName ==> ipcc.fmo == answered
      modifies this`fmo, this`fmoName
      ensures fmoName == r.fmoName && (fmo != null ==> fmo == answered)
      ensures fmo != null <==> if old(fmoName) == r.fmoName then old(fmo) != null
                               else ipcc.fmo != null && ipcc.fmo.name == r.fmoName
      ensures data == if fmo != null then Some(answered.data[..bytes]) else None
    {
      data := None;
      if fmoName != r.fmoName {
        // OpenFileMappingW; the test that follows it looks at the handle
        fmo := if ipcc.fmo != null && ipcc.fmo.name == r.fmoName then ipcc.fmo else null;
        fmoName := r.fmoName;
      }
      if fmo == null || fmo.size < bytes { return; }
      data := Some(fmo.data[..bytes]);
    }

    /** restore_handle over the whole table. */
    method Restore(server: Server, openings: string -> Opening) returns (ok: bool)
      requires server.Valid() && server.alive && server.handles == map[] && server.fmo == null
      requires server != ipcc
      modifies handles, server
      ensures server.Valid() && server.fmo == null
      ensures ok ==> server.alive && Bound(Ids(handles), server.handles) && Covers(Ids(handles), server.handles)
      ensures ok <==> forall h :: h in handles ==> openings(h.filepath) == Described
    {
      hide Ids, Bound, Covers;
      NoIds(server.handles);
      var done: set<Handle>, todo := {}, handles;
      while todo != {}
        invariant done + todo == handles && done !! todo
        invariant server.Valid() && server.alive && server.fmo == null
        invariant Bound(Ids(done), server.handles) && Covers(Ids(done), server.handles)
        invariant forall h :: h in done ==> openings(h.filepath) == Described
        decreases |todo|
      {
        var h :| h in todo;
        ghost var ids, open := Ids(done), server.handles;
        var id := server.HandleOpen(h.filepath, openings(h.filepath));
        if id == None { return false; }
        h.id := id.value;
        assert Ids(done) == ids;
        AddId(done, h);
        Bind(ids, open, h, id.value);
        done, todo := done + {h}, todo - {h};
      }
      return true;
    }

    /** process_finished. */
    method ProcessFinished(recovery: Recovery)
      requires Valid()
      modifies this`state, this`ipcc, handles
      ensures Valid() && fresh(Repr() - old(Repr()))
      ensures FinishStep(old(Snap()), recovery, Snap())
    {
      hide Ids, Bound, Covers;
      if state == Booting {
        state := Exiting;
        return;
      }
      if state != Running { return; }
      state, ipcc := Exiting, null;
      match recovery {
        case Cancelled =>
        case NotStarted => state := Unknown;
        case Started(openings, diesAfterwards) =>
          state := Booting;
          var server := new Server(files);
          var ok := Restore(server, openings);
          if !ok {
            state := Unknown;
            return;
          }
          if diesAfterwards { server.Crash(); }
          ipcc, state := server, Running;
      }
    }
  }

  // ------------------------------------------------ whole runs

  /** What the host, the reader and the system do, in any order. seen is what
      the host last read of the state: it may be out of date. */
  datatype Event =
    | Opens(seen: State, path: string, opening: Opening, local: Local, undoes: bool)
    | Closes(seen: State, closes: bool)
    | Reads(seen: State, start: int, length: nat, read: Reading, hints: nat -> string, others: set<string>, dies: bool)
    | Dies
    | Finishes(recovery: Recovery)

  /** What the event returned. */
  datatype Outcome = Opened(eno: Errno, handle: Handle?) | Closed(ok: bool) | Answered(data: Option<bytes>) | Nothing

  /** The event took the bridge from before to after and returned o; asked is the
      handle a close or a read was for, if there was any. */
  ghost predicate Stepped(before: Snapshot, e: Event, asked: Handle?, o: Outcome, after: Snapshot) {
    match e
    case Opens(seen, path, opening, local, undoes) =>
      o.Opened? && OpenStep(before, seen, path, opening, local, undoes, o.eno, o.handle, after)
    case Closes(seen, closes) =>
      if before.handles == {} then o == Nothing && after == before
      else o.Closed? && asked in before.handles && CloseStep(before, seen, asked, closes, o.ok, after)
    case Reads(seen, start, length, read, hints, others, dies) =>
      if before.handles == {} then o == Nothing && after == before
      else
        && o.Answered? && asked in before.handles
        && ReadStep(before, seen, asked, start, length, read, hints, others, dies, o.data, after)
    case Dies => o == Nothing && after == before.Disconnected()
    case Finishes(recovery) => o == Nothing && FinishStep(before, recovery, after)
  }

  /** One event, on whichever handle the host likes. */
  method Happen(client: Client, e: Event) returns (o: Outcome, ghost asked: Handle?)
    requires client.Valid() && (e.Reads? ==> Honest(client.files, e.read))
    modifies client.Repr()
    ensures client.Valid() && fresh(client.Repr() - old(client.Repr()))
    ensures Stepped(old(client.Snap()), e, asked, o, client.Snap())
  {
    hide Client.Valid, Client.Snap, OpenStep, CloseStep, ReadStep, FinishStep, Snapshot.Disconnected;
    o, asked := Nothing, null;
    SnapHandles(client);
    match e {
      case Opens(seen, p, opening, local, undoes) =>
        var eno, h := client.Open(seen, p, opening, local, undoes);
        o := Opened(eno, h);
      case Closes(seen, closes) =>
        if h :| h in client.handles {
          asked := h;
          var ok := client.Close(seen, h, closes);
          o := Closed(ok);
        }
      case Reads(seen, start, length, read, hints, others, dies) =>
        if h :| h in client.handles {
          asked := h;
          var data := client.Read(seen, h, start, length, read, hints, others, dies);
          o := Answered(data);
        }
      case Dies => client.Die();
      case Finishes(recovery) => client.ProcessFinished(recovery);
    }
  }

  lemma SnapHandles(client: Client)
    ensures client.Snap().handles == client.handles
  {
  }

  /** A whole run from the start of the plugin: the client it ends with, what each
      event returned, and the bridge between them. Whatever a read returns is what
      the reader produced for that very request on the file of the handle asked
      for. */
  method Session(files: string -> Info, starts: bool, events: seq<Event>)
    returns (client: Client, log: seq<Outcome>, ghost asked: seq<Handle?>, ghost trace: seq<Snapshot>)
    requires forall e :: e in events && e.Reads? ==> Honest(files, e.read)
    ensures client.Valid() && fresh(client.Repr()) && client.files == files
    ensures |log| == |asked| == |events| && |trace| == |events| + 1 && client.Snap() == trace[|events|]
    ensures trace[0] == Snapshot(if starts then Running else Unknown, starts, true, {}, "", false, 0, None)
    ensures forall n :: 0 <= n < |events| ==> Stepped(trace[n], events[n], asked[n], log[n], trace[n + 1])
    ensures forall n :: 0 <= n < |events| && log[n].Answered? && log[n].data.Some? ==>
              Answers(events[n], asked[n], log[n].data.value)
    ensures forall n :: 0 <= n <= |events| && (forall e :: e in events[..n] && e.Opens? ==> e.undoes) ==> trace[n].exact
    ensures (forall e :: e in events && e.Opens? ==> e.undoes) ==> client.Exact()
  {
    hide Client.Valid, Client.Snap, Client.Exact, Stepped;
    client := new Client(files, starts);
    log, asked, trace := [], [], [client.Snap()];
    for n := 0 to |events|
      invariant client.Valid() && fresh(client.Repr()) && client.files == files
      invariant |log| == |asked| == n && |trace| == n + 1 && trace[n] == client.Snap()
      invariant trace[0] == Snapshot(if starts then Running else Unknown, starts, true, {}, "", false, 0, None)
      invariant forall m :: 0 <= m < n ==> Stepped(trace[m], events[m], asked[m], log[m], trace[m + 1])
    {
      var o, h := Happen(client, events[n]);
      log, asked, trace := log + [o], asked + [h], trace + [client.Snap()];
    }
    forall n | 0 <= n < |events| && log[n].Answered? && log[n].data.Some?
      ensures Answers(events[n], asked[n], log[n].data.value)
    {
      StepAnswers(trace[n], events[n], asked[n], log[n], trace[n + 1]);
    }
    StaysExact(events, asked, log, trace);
    if forall e :: e in events && e.Opens? ==> e.undoes {
      assert events[..|events|] == events && trace[|events|].exact;
      SnapExact(client);
    }
  }

  lemma SnapExact(client: Client)
    ensures client.Snap().exact <==> client.Exact()
  {
  }

  /** data is what the reader produces for this request on the handle's file. */
  ghost predicate Answers(e: Event, asked: Handle?, data: bytes) {
    e.Reads? && asked != null && data == e.read(asked.filepath, e.start, e.length).data
  }

  lemma StepAnswers(before: Snapshot, e: Event, asked: Handle?, o: Outcome, after: Snapshot)
    requires Stepped(before, e, asked, o, after) && o.Answered? && o.data.Some?
    ensures Answers(e, asked, o.data.value)
  {
  }

  /** The tables stay in step as long as every handle on its way out is closed. */
  lemma StaysExact(events: seq<Event>, asked: seq<Handle?>, log: seq<Outcome>, trace: seq<Snapshot>)
    requires |log| == |asked| == |events| && |trace| == |events| + 1 && trace[0].exact
    requires forall n :: 0 <= n < |events| ==> Stepped(trace[n], events[n], asked[n], log[n], trace[n + 1])
    ensures forall n :: 0 <= n <= |events| && (forall e :: e in events[..n] && e.Opens? ==> e.undoes) ==> trace[n].exact
  {
    hide Stepped;
    for n := 0 to |events|
      invariant forall m :: 0 <= m <= n && (forall e :: e in events[..m] && e.Opens? ==> e.undoes) ==> trace[m].exact
    {
      assert events[..n + 1] == events[..n] + [events[n]];
      StepExact(trace[n], events[n], asked[n], log[n], trace[n + 1]);
    }
  }

  lemma StepExact(before: Snapshot, e: Event, asked: Handle?, o: Outcome, after: Snapshot)
    requires Stepped(before, e, asked, o, after)
    ensures before.exact && (e.Opens? ==> e.undoes) ==> after.exact
  {
  }
}
