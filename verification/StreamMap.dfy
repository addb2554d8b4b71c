/** The table of open files (stream.c): streams are counted references shared
    by table entries, or wait in a pool of four to be opened again. */
module StreamMap {
  import opened Wrappers

  datatype FileId = FileId(volume: nat, id: nat)

  /** enum config_handle_manage_mode. */
  datatype Mode = Normal | Cache | Pool

  /** struct stream; closed counts how often the file behind it was closed. */
  class Stream {
    const fid: FileId
    var refcount: int
    var closed: nat

    constructor (fid: FileId)
      ensures this.fid == fid && refcount == 1 && closed == 0
    {
      this.fid, refcount, closed := fid, 1, 0;
    }

    method AddRef()
      modifies this
      ensures refcount == old(refcount) + 1 && closed == old(closed)
    {
      refcount := refcount + 1;
    }

    /** stream_destroy. */
    method Destroy()
      modifies this
      ensures refcount == old(refcount) - 1
      ensures closed == old(closed) + if refcount > 0 then 0 else 1
    {
      refcount := refcount - 1;
      if refcount > 0 { return; }
      closed := closed + 1;
    }
  }

  class Resampler {
    var destroyed: nat

    constructor ()
      ensures destroyed == 0
    {
      destroyed := 0;
    }

    method Destroy()
      modifies this
      ensures destroyed == old(destroyed) + 1
    {
      destroyed := destroyed + 1;
    }
  }

  datatype Entry = Entry(stream: Stream, resampler: Resampler?)

  datatype PoolItem = PoolItem(fid: FileId, usedAt: Timespec, stream: Stream?)

  const EMPTY := PoolItem(FileId(0, 0), Timespec(0, 0), null)

  // ------------------------------------------------ who holds a stream

  datatype Holder = Key(k: int) | Slot(i: nat)

  /** The table entries and pool slots that point to s. */
  ghost function Holders(entries: map<int, Entry>, slots: seq<PoolItem>, s: Stream): set<Holder> {
    (set k | k in entries && entries[k].stream == s :: Key(k))
    + (set i | 0 <= i < |slots| && slots[i].stream == s :: Slot(i))
  }

  /** Every live stream is open and its count is what points to it, the
      references a running operation has in its hands included; nothing points
      to a stream that is not live. */
  ghost predicate Conserved(live: set<Stream>, entries: map<int, Entry>, slots: seq<PoolItem>, hand: multiset<Stream>)
    reads live
  {
    && (forall s :: s in live ==>
          s.closed == 0 && s.refcount == |Holders(entries, slots, s)| + hand[s] && s.refcount > 0)
    && (forall k :: k in entries ==> entries[k].stream in live)
    && (forall i :: 0 <= i < |slots| && slots[i].stream != null ==> slots[i].stream in live)
    && (forall s :: s in hand ==> s in live)
  }

  lemma KeyHolds(entries: map<int, Entry>, slots: seq<PoolItem>, k: int, e: Entry, s: Stream)
    requires k !in entries
    ensures Key(k) !in Holders(entries, slots, s)
    ensures Holders(entries[k := e], slots, s) == Holders(entries, slots, s) + if e.stream == s then {Key(k)} else {}
  {
    var was, now := Holders(entries, slots, s), Holders(entries[k := e], slots, s);
    forall h ensures h in now <==> h in was || (h == Key(k) && e.stream == s) {
      match h {
        case Key(j) => assert j != k ==> (j in entries[k := e] <==> j in entries);
        case Slot(i) =>
      }
    }
  }

  lemma SlotHolds(entries: map<int, Entry>, slots: seq<PoolItem>, i: nat, item: PoolItem, s: Stream)
    requires i < |slots| && slots[i].stream == null
    ensures Slot(i) !in Holders(entries, slots, s)
    ensures Holders(entries, slots[i := item], s)
         == Holders(entries, slots, s) + if item.stream == s then {Slot(i)} else {}
  {
    var was, now := Holders(entries, slots, s), Holders(entries, slots[i := item], s);
    forall h ensures h in now <==> h in was || (h == Slot(i) && item.stream == s) {
      match h {
        case Key(_) =>
        case Slot(j) => assert j != i && j < |slots| ==> slots[i := item][j] == slots[j];
      }
    }
  }

  /** hmset: what was in hand is in the table. */
  lemma HandToKey(
    live: set<Stream>, entries: map<int, Entry>, slots: seq<PoolItem>, hand: multiset<Stream>, k: int, e: Entry)
    requires k !in entries
    requires Conserved(live, entries, slots, hand + multiset{e.stream})
    ensures Conserved(live, entries[k := e], slots, hand)
  {
    hide Holders;
    forall s | s in live
      ensures |Holders(entries[k := e], slots, s)| + hand[s]
           == |Holders(entries, slots, s)| + (hand + multiset{e.stream})[s]
    {
      KeyHolds(entries, slots, k, e, s);
    }
    forall s | s in hand ensures s in live { assert s in hand + multiset{e.stream}; }
  }

  /** hmdelete: and back. */
  lemma KeyToHand(live: set<Stream>, entries: map<int, Entry>, slots: seq<PoolItem>, hand: multiset<Stream>, k: int)
    requires k in entries
    requires Conserved(live, entries, slots, hand)
    ensures Conserved(live, entries - {k}, slots, hand + multiset{entries[k].stream})
  {
    hide Holders;
    var e := entries[k];
    var rest := entries - {k};
    assert rest[k := e] == entries;
    forall s | s in live
      ensures |Holders(entries, slots, s)| + hand[s]
           == |Holders(rest, slots, s)| + (hand + multiset{e.stream})[s]
    {
      KeyHolds(rest, slots, k, e, s);
    }
  }

  lemma HandToSlot(
    live: set<Stream>, entries: map<int, Entry>, slots: seq<PoolItem>, hand: multiset<Stream>, i: nat, item: PoolItem)
    requires i < |slots| && slots[i].stream == null && item.stream != null
    requires Conserved(live, entries, slots, hand + multiset{item.stream})
    ensures Conserved(live, entries, slots[i := item], hand)
  {
    hide Holders;
    forall s | s in live
      ensures |Holders(entries, slots[i := item], s)| + hand[s]
           == |Holders(entries, slots, s)| + (hand + multiset{item.stream})[s]
    {
      SlotHolds(entries, slots, i, item, s);
    }
    assert item.stream in hand + multiset{item.stream};
    forall s | s in hand ensures s in live { assert s in hand + multiset{item.stream}; }
  }

  lemma SlotToHand(live: set<Stream>, entries: map<int, Entry>, slots: seq<PoolItem>, hand: multiset<Stream>, i: nat)
    requires i < |slots| && slots[i].stream != null
    requires Conserved(live, entries, slots, hand)
    ensures Conserved(live, entries, slots[i := EMPTY], hand + multiset{slots[i].stream})
  {
    hide Holders;
    var item := slots[i];
    var rest := slots[i := EMPTY];
    assert rest[i := item] == slots;
    forall s | s in live
      ensures |Holders(entries, slots, s)| + hand[s]
           == |Holders(entries, rest, s)| + (hand + multiset{item.stream})[s]
    {
      SlotHolds(entries, rest, i, item, s);
    }
  }

  lemma HeldByNone(entries: map<int, Entry>, slots: seq<PoolItem>, s: Stream)
    requires |Holders(entries, slots, s)| == 0
    ensures forall k :: k in entries ==> entries[k].stream != s
    ensures forall i :: 0 <= i < |slots| ==> slots[i].stream != s
  {
    forall k | k in entries ensures entries[k].stream != s { assert Key(k) !in Holders(entries, slots, s); }
    forall i | 0 <= i < |slots| ensures slots[i].stream != s { assert Slot(i) !in Holders(entries, slots, s); }
  }

  lemma InLive(live: set<Stream>, entries: map<int, Entry>, slots: seq<PoolItem>, hand: multiset<Stream>, i: nat)
    requires Conserved(live, entries, slots, hand) && i < |slots| && slots[i].stream != null
    ensures slots[i].stream in live
  {
  }

  lemma KeyInLive(live: set<Stream>, entries: map<int, Entry>, slots: seq<PoolItem>, hand: multiset<Stream>, k: int)
    requires Conserved(live, entries, slots, hand) && k in entries
    ensures entries[k].stream in live
  {
  }

  lemma NothingHeld(live: set<Stream>, slots: seq<PoolItem>)
    requires Conserved(live, map[], slots, multiset{})
    requires forall i :: 0 <= i < |slots| ==> slots[i].stream == null
    ensures live == {}
  {
    forall s ensures Holders(map[], slots, s) == {} {}
  }

  lemma HeldByNobody(live: set<Stream>, entries: map<int, Entry>, slots: seq<PoolItem>, s: Stream)
    requires s !in live
    requires forall k :: k in entries ==> entries[k].stream in live
    requires forall i :: 0 <= i < |slots| && slots[i].stream != null ==> slots[i].stream in live
    ensures |Holders(entries, slots, s)| == 0
  {
    assert Holders(entries, slots, s) == {};
  }

  /** With no pool, what holds a stream is a table entry. */
  lemma HeldByKey(entries: map<int, Entry>, slots: seq<PoolItem>, s: Stream) returns (k: int)
    requires |Holders(entries, slots, s)| > 0 && slots == []
    ensures k in entries && entries[k].stream == s
  {
    var h :| h in Holders(entries, slots, s);
    k := h.k;
  }

  // ------------------------------------------------ the pool as a queue

  ghost predicate Distinct(idle: seq<nat>) {
    forall a, b :: 0 <= a < b < |idle| ==> idle[a] != idle[b]
  }

  /** idle lists the occupied slots, each once; a slot that is not is blank. */
  ghost predicate Shaped(slots: seq<PoolItem>, idle: seq<nat>) {
    && Distinct(idle)
    && (forall a :: 0 <= a < |idle| ==> idle[a] < |slots| && slots[idle[a]].stream != null)
    && (forall i :: 0 <= i < |slots| && slots[i].stream != null ==>
          i in idle && slots[i].fid == slots[i].stream.fid && slots[i].usedAt.Nanos() > 0)
    && (forall i :: 0 <= i < |slots| && slots[i].stream == null ==> slots[i] == EMPTY)
  }

  /** The clock only ever moved forward between two entries into the pool. */
  ghost predicate Ticking(slots: seq<PoolItem>, idle: seq<nat>)
    requires Shaped(slots, idle)
  {
    forall a, b :: 0 <= a < b < |idle| ==> slots[idle[a]].usedAt.Nanos() < slots[idle[b]].usedAt.Nanos()
  }

  ghost predicate LaterThanAll(now: Timespec, slots: seq<PoolItem>) {
    forall i :: 0 <= i < |slots| && slots[i].stream != null ==> slots[i].usedAt.Nanos() < now.Nanos()
  }

  /** The streams in the pool in the order they were put there. */
  ghost function Queue(slots: seq<PoolItem>, idle: seq<nat>): seq<Stream>
    requires Shaped(slots, idle)
  {
    seq(|idle|, a requires 0 <= a < |idle| => slots[idle[a]].stream)
  }

  /** q without its element at position v. */
  function Drop<T>(q: seq<T>, v: nat): (r: seq<T>)
    requires v < |q|
    ensures |r| == |q| - 1 && forall a :: 0 <= a < |r| ==> r[a] == q[if a < v then a else a + 1]
  {
    q[..v] + q[v + 1..]
  }

  lemma DropKeeps(idle: seq<nat>, v: nat)
    requires Distinct(idle) && v < |idle|
    ensures Distinct(Drop(idle, v))
    ensures forall i :: i in Drop(idle, v) <==> i in idle && i != idle[v]
  {
    var rest := Drop(idle, v);
    forall i | i in idle && i != idle[v] ensures i in rest {
      var a :| 0 <= a < |idle| && idle[a] == i;
      assert rest[if a < v then a else a - 1] == i;
    }
  }

  /** No more are idle than there are slots, and as many only if all are. */
  lemma {:induction false} IdleFits(idle: seq<nat>, n: nat)
    requires Distinct(idle) && forall i :: i in idle ==> i < n
    ensures |idle| <= n && (|idle| == n <==> forall i: nat :: i < n ==> i in idle)
  {
    if idle == [] {
      assert 0 !in idle;
      return;
    }
    assert idle[0] in idle;
    if n - 1 in idle {
      var v :| 0 <= v < |idle| && idle[v] == n - 1;
      DropKeeps(idle, v);
      IdleFits(Drop(idle, v), n - 1);
      assert forall i: nat :: i < n - 1 ==> (i in idle <==> i in Drop(idle, v));
    } else {
      IdleFits(idle, n - 1);
    }
  }

  /** Taking the stream at position v out of the queue. */
  lemma Leave(slots: seq<PoolItem>, idle: seq<nat>, v: nat)
    requires Shaped(slots, idle) && v < |idle|
    ensures Shaped(slots[idle[v] := EMPTY], Drop(idle, v))
    ensures Queue(slots[idle[v] := EMPTY], Drop(idle, v)) == Drop(Queue(slots, idle), v)
    ensures Ticking(slots, idle) ==> Ticking(slots[idle[v] := EMPTY], Drop(idle, v))
  {
    hide Drop;
    DropKeeps(idle, v);
  }

  /** A new stream at the end of the queue, in slot i. */
  lemma Enter(slots: seq<PoolItem>, idle: seq<nat>, i: nat, item: PoolItem)
    requires Shaped(slots, idle) && i < |slots| && slots[i].stream == null
    requires item.stream != null && item.fid == item.stream.fid && item.usedAt.Nanos() > 0
    ensures Shaped(slots[i := item], idle + [i])
    ensures Queue(slots[i := item], idle + [i]) == Queue(slots, idle) + [item.stream]
    ensures Ticking(slots, idle) && LaterThanAll(item.usedAt, slots) ==> Ticking(slots[i := item], idle + [i])
  {
  }

  /** Slot j has this identity, and none that has it was put back earlier. */
  predicate LongestIdle(slots: seq<PoolItem>, file: FileId, j: int) {
    && 0 <= j < |slots| && slots[j].fid == file
    && forall i :: 0 <= i < |slots| && slots[i].fid == file ==> slots[j].usedAt.Nanos() <= slots[i].usedAt.Nanos()
  }

  /** Where the longest idle stream of a file stands in the queue. */
  lemma Position(slots: seq<PoolItem>, idle: seq<nat>, file: FileId, j: nat) returns (v: nat)
    requires Shaped(slots, idle) && LongestIdle(slots, file, j) && slots[j].stream != null
    ensures v < |idle| == |Queue(slots, idle)| && idle[v] == j
    ensures Queue(slots, idle)[v] == slots[j].stream
    ensures Ticking(slots, idle) ==> forall a :: 0 <= a < v ==> Queue(slots, idle)[a].fid != file
  {
    v :| 0 <= v < |idle| && idle[v] == j;
  }

  lemma BlankSlot(slots: seq<PoolItem>, idle: seq<nat>, j: nat)
    requires Shaped(slots, idle) && j < |slots|
    ensures slots[j].stream == null ==> slots[j] == EMPTY && slots[j := EMPTY] == slots
    ensures slots[j].stream != null ==> slots[j].fid == slots[j].stream.fid
  {
  }

  /** Some stream in the pool has this identity, and no blank slot does. */
  ghost predicate Pooled(slots: seq<PoolItem>, idle: seq<nat>, file: FileId)
    requires Shaped(slots, idle)
  {
    && (exists s :: s in Queue(slots, idle) && s.fid == file)
    && (file == EMPTY.fid ==> forall i :: 0 <= i < |slots| ==> slots[i].stream != null)
  }

  lemma PooledFound(slots: seq<PoolItem>, idle: seq<nat>, file: FileId, j: nat)
    requires Shaped(slots, idle) && LongestIdle(slots, file, j)
    ensures Pooled(slots, idle, file) <==> slots[j].stream != null
  {
    if slots[j].stream != null {
      var a :| 0 <= a < |idle| && idle[a] == j;
      assert Queue(slots, idle)[a].fid == file;
    }
  }

  lemma PooledMissed(slots: seq<PoolItem>, idle: seq<nat>, file: FileId)
    requires Shaped(slots, idle) && forall i :: 0 <= i < |slots| ==> slots[i].fid != file
    ensures !Pooled(slots, idle, file)
  {
    forall s | s in Queue(slots, idle) ensures s.fid != file {
      var a :| 0 <= a < |idle| && Queue(slots, idle)[a] == s;
      assert s.fid == slots[idle[a]].fid;
    }
  }

  /** Slot j is one that was put back earliest. */
  predicate Oldest(slots: seq<PoolItem>, j: int) {
    0 <= j < |slots| && forall i :: 0 <= i < |slots| ==> slots[j].usedAt.Nanos() <= slots[i].usedAt.Nanos()
  }

  /** A stream joining a queue of at most n: the head makes room. */
  function Pushed(queue: seq<Stream>, s: Stream, n: nat): seq<Stream> {
    (if 0 < n == |queue| then queue[1..] else queue) + [s]
  }

  lemma IdleCount(slots: seq<PoolItem>, idle: seq<nat>)
    requires Shaped(slots, idle)
    ensures |Queue(slots, idle)| == |idle| <= |slots|
    ensures |idle| == |slots| <==> forall i :: 0 <= i < |slots| ==> slots[i].stream != null
  {
    forall i ensures i in idle <==> 0 <= i < |slots| && slots[i].stream != null {
      if i in idle { var a :| 0 <= a < |idle| && idle[a] == i; }
    }
    IdleFits(idle, |slots|);
  }

  /** The oldest slot is the head of the queue, when the clock ticks. */
  lemma Eldest(slots: seq<PoolItem>, idle: seq<nat>, j: nat) returns (v: nat)
    requires Shaped(slots, idle) && Oldest(slots, j) && slots[j].stream != null
    ensures v < |idle| && idle[v] == j && Queue(slots, idle)[v] == slots[j].stream
    ensures Ticking(slots, idle) ==> v == 0
  {
    v :| 0 <= v < |idle| && idle[v] == j;
    assert slots[j].usedAt.Nanos() <= slots[idle[0]].usedAt.Nanos();
  }

  lemma HeadDropped(slots: seq<PoolItem>, idle: seq<nat>, v: nat, j: nat, now: Timespec)
    requires Shaped(slots, idle) && v < |idle| && j < |slots|
    ensures v == 0 ==> Drop(Queue(slots, idle), v) == Queue(slots, idle)[1..]
    ensures LaterThanAll(now, slots) ==> LaterThanAll(now, slots[j := EMPTY])
  {
  }

  // ------------------------------------------------ what an operation does

  /** What can be told of a map at one moment. */
  datatype Snapshot = Snapshot(
    mode: Mode,
    entries: map<int, Entry>,
    keyIndex: nat,
    slots: seq<PoolItem>,
    idle: seq<nat>,
    live: set<Stream>,
    created: set<Stream>,
    resamplers: set<Resampler>)
  {
    /** An entry or a pool slot points to s. */
    ghost predicate Held(s: Stream) {
      (exists k :: k in entries && entries[k].stream == s) || (exists i :: 0 <= i < |slots| && slots[i].stream == s)
    }

    /** The streams that are open are those that something points to; in cache
        mode no two of them are of one file. */
    ghost predicate Sane() {
      && Shaped(slots, idle) && |slots| == (if mode == Pool then 4 else 0)
      && (forall s :: s in live ==> Held(s)) && live <= created
      && (forall k :: k in entries ==> entries[k].stream in live)
      && (forall i :: 0 <= i < |slots| && slots[i].stream != null ==> slots[i].stream in live)
      && (mode == Cache ==> forall s, t :: s in live && t in live && s.fid == t.fid ==> s == t)
      && (forall k :: k in entries ==> 0 < k <= keyIndex)
      && (forall k, j :: k in entries && j in entries && k != j && entries[k].resampler != null ==>
            entries[k].resampler != entries[j].resampler)
    }

    /** There is a stream to be had without opening the file again. */
    ghost predicate Reusable(file: FileId)
      requires Shaped(slots, idle)
    {
      match mode
      case Normal => false
      case Cache => exists s :: s in live && s.fid == file
      case Pool => Pooled(slots, idle, file)
    }
  }

  lemma SomethingHolds(snap: Snapshot, s: Stream)
    requires |Holders(snap.entries, snap.slots, s)| > 0
    ensures snap.Held(s)
  {
    var h :| h in Holders(snap.entries, snap.slots, s);
  }

  /** A map nothing has happened to. */
  function Blank(mode: Mode): Snapshot {
    Snapshot(mode, map[], 0, seq(if mode == Pool then 4 else 0, i => EMPTY), [], {}, {}, {})
  }

  /** s has left the queue from position v, and its slot, of all slots with this
      identity, was filled earliest; if the clock ticks, v is the first position
      of its file. */
  ghost predicate TakenAt(before: Snapshot, after: Snapshot, s: Stream, v: nat)
    requires Shaped(before.slots, before.idle) && Shaped(after.slots, after.idle)
  {
    var queue := Queue(before.slots, before.idle);
    && v < |queue| && queue[v] == s && Queue(after.slots, after.idle) == Drop(queue, v)
    && LongestIdle(before.slots, s.fid, before.idle[v]) && after.slots == before.slots[before.idle[v] := EMPTY]
    && (Ticking(before.slots, before.idle) ==>
          Ticking(after.slots, after.idle) && forall a :: 0 <= a < v ==> queue[a].fid != s.fid)
  }

  /** streammap_create_stream: a new entry for a stream of the file, which is one
      that was open already exactly when one was reusable. */
  ghost predicate Creation(
    before: Snapshot, file: FileId, known: bool, unreadable: set<FileId>, opens: bool, idx: Option<int>,
    after: Snapshot)
    requires Shaped(before.slots, before.idle) && Shaped(after.slots, after.idle)
  {
    var reuse := before.Reusable(file);
    && (before.mode != Normal && !known ==> idx == None)
    && ((before.mode != Normal ==> known)
        && (before.mode == Cache ==> forall s :: s in before.live ==> s.fid !in unreadable) ==>
          (idx.Some? <==> opens || reuse))
    && (idx == None ==> after == before)
    && (idx.Some? ==>
          && idx.value == before.keyIndex + 1 && idx.value !in before.entries && idx.value in after.entries
          && var s := after.entries[idx.value].stream;
             && s.fid == file && (reuse <==> s in before.live) && (reuse || s !in before.created)
             && after.entries == before.entries[idx.value := Entry(s, null)]
             && after.live == before.live + {s} && after.created == before.created + {s}
             && after.keyIndex == idx.value && after.mode == before.mode && after.resamplers == before.resamplers
             && if before.mode == Pool && reuse then exists v: nat :: TakenAt(before, after, s, v)
                else after.slots == before.slots && after.idle == before.idle)
  }

  /** get_stream_and_resampler: the entry's stream and its resampler, which is
      made at the first use. */
  ghost predicate Lookup(before: Snapshot, idx: int, able: bool, sp: Stream?, rp: Resampler?, after: Snapshot) {
    && (sp != null <==> idx in before.entries && (able || before.entries[idx].resampler != null))
    && (sp == null ==> rp == null && after == before)
    && (sp != null ==>
          && sp == before.entries[idx].stream && rp != null
          && (if before.entries[idx].resampler != null then rp == before.entries[idx].resampler
              else rp !in before.resamplers)
          && after == before.(entries := before.entries[idx := Entry(sp, rp)], resamplers := before.resamplers + {rp}))
  }

  /** streammap_free_stream: the entry goes, and its stream into the pool, where
      the one put back earliest makes room if no slot is blank, or if nothing
      else holds it to its end. */
  ghost predicate Freeing(
    before: Snapshot, idx: int, clock: bool, known: bool, now: Timespec, ok: bool, after: Snapshot)
    requires Shaped(before.slots, before.idle) && Shaped(after.slots, after.idle)
  {
    if idx !in before.entries then ok && after == before
    else
      var pooling := before.mode == Pool && clock && known;
      && (ok <==> before.mode != Pool || pooling)
      && after == before.(entries := before.entries - {idx},
                          slots := after.slots, idle := after.idle, live := after.live)
      && after.live <= before.live
      && (if pooling then Joined(before, before.entries[idx].stream, now, after)
          else after.slots == before.slots && after.idle == before.idle)
  }

  /** s has joined the pool in the first blank slot, or in place of the stream that
      was put back earliest, which was closed. */
  ghost predicate Joined(before: Snapshot, s: Stream, now: Timespec, after: Snapshot)
    requires Shaped(before.slots, before.idle) && Shaped(after.slots, after.idle)
  {
    && (exists j: nat :: JoinedAt(before.slots, before.live, s, now, j, after.slots, after.live))
    && (Ticking(before.slots, before.idle) && LaterThanAll(now, before.slots) ==>
          && Ticking(after.slots, after.idle)
          && Queue(after.slots, after.idle) == Pushed(Queue(before.slots, before.idle), s, |before.slots|))
  }

  ghost predicate JoinedAt(
    slots: seq<PoolItem>, live: set<Stream>, s: Stream, now: Timespec, j: nat,
    slots': seq<PoolItem>, live': set<Stream>)
  {
    && j < |slots| && slots' == slots[j := PoolItem(s.fid, now, s)]
    && (slots[j].stream == null ==> live' == live && forall i :: 0 <= i < j ==> slots[i].stream != null)
    && (slots[j].stream != null ==>
          && (forall i :: 0 <= i < |slots| ==>
                slots[i].stream != null && slots[j].usedAt.Nanos() <= slots[i].usedAt.Nanos())
          && live' == live - {slots[j].stream})
  }

  // ------------------------------------------------ the map

  lemma Inhabited<T>(keys: set<T>) returns (k: T)
    requires keys != {}
    ensures k in keys
  {
    k :| k in keys;
  }

  /** struct streammap. */
  class StreamMap {
    const mode: Mode
    var entries: map<int, Entry>
    var keyIndex: nat
    const pool: array<PoolItem>
    ghost var idle: seq<nat>             // occupied slots, least recently put back first
    ghost var live: set<Stream>          // streams that are open
    ghost var created: set<Stream>       // streams that ever were
    ghost var resamplers: set<Resampler> // resamplers that ever were

    /** streammap_create. */
    constructor (mode: Mode)
      ensures Valid() && fresh(pool) && Snap() == Blank(mode) && Ticking(pool[..], idle)
    {
      this.mode := mode;
      entries, keyIndex := map[], 0;
      pool := new PoolItem[if mode == Pool then 4 else 0](i => EMPTY);
      idle, live, created, resamplers := [], {}, {}, {};
      new;
      assert pool[..] == Blank(mode).slots;
    }

    ghost function Snap(): Snapshot
      reads this, pool
    {
      Snapshot(mode, entries, keyIndex, pool[..], idle, live, created, resamplers)
    }

    /** What every operation keeps. */
    ghost predicate Valid()
      reads this, pool, created, resamplers
    {
      Holding(multiset{})
    }

    /** The same in the middle of an operation that has references in hand. */
    ghost predicate Holding(hand: multiset<Stream>)
      reads this, pool, created, resamplers
    {
      && pool.Length == (if mode == Pool then 4 else 0)
      && Shaped(pool[..], idle)
      && Counted(entries, pool[..], hand)
      && (mode != Cache ==> forall s :: s in live ==> s.refcount == 1)
      && (mode == Cache ==> forall s, t :: s in live && t in live && s.fid == t.fid ==> s == t)
      && (forall k :: k in entries ==> 0 < k <= keyIndex)
      && Owned(entries)
    }

    /** Counts are conserved, and a stream that is gone was closed once. */
    ghost predicate Counted(table: map<int, Entry>, slots: seq<PoolItem>, hand: multiset<Stream>)
      reads `live, `created, created
    {
      && live <= created
      && Conserved(live, table, slots, hand)
      && (forall s :: s in created - live ==> s.closed == 1)
    }

    /** Each resampler belongs to exactly one entry or was destroyed, once. */
    ghost predicate Owned(table: map<int, Entry>)
      reads `resamplers, resamplers
    {
      && (forall k :: k in table && table[k].resampler != null ==>
            table[k].resampler in resamplers && table[k].resampler.destroyed == 0)
      && (forall k, j :: k in table && j in table && k != j && table[k].resampler != null ==>
            table[k].resampler != table[j].resampler)
      && (forall r :: r in resamplers ==>
            r.destroyed == 1 || (r.destroyed == 0 && exists k :: k in table && table[k].resampler == r))
    }

    /** stream_destroy of a reference in hand. */
    method Release(s: Stream, ghost table: map<int, Entry>, ghost slots: seq<PoolItem>, ghost hand: multiset<Stream>)
      requires s in hand && Counted(table, slots, hand)
      modifies s, `live
      ensures Counted(table, slots, hand - multiset{s})
      ensures s.refcount == old(s.refcount) - 1
      ensures live == if s.refcount > 0 then old(live) else old(live) - {s}
    {
      hide Holders;
      s.Destroy();
      if s.refcount == 0 {
        live := live - {s};
        HeldByNone(table, slots, s);
      }
    }

    // ---------------------------------------------- streams that come back

    /** The scan of find_from_pool: the longest idle of the slots with this
        identity, or -1. */
    method Search(file: FileId) returns (found: int)
      ensures found == -1 ==> forall i :: 0 <= i < pool.Length ==> pool[i].fid != file
      ensures found != -1 ==> LongestIdle(pool[..], file, found)
    {
      found := -1;
      for i := 0 to pool.Length
        invariant found == -1 ==> forall j :: 0 <= j < i ==> pool[j].fid != file
        invariant found != -1 ==> 0 <= found < i && LongestIdle(pool[..i], file, found)
      {
        if file == pool[i].fid && (found == -1 || Later(pool[found].usedAt, pool[i].usedAt)) {
          found := i;
        }
      }
      assert pool[..pool.Length] == pool[..];
    }

    /** There is a stream to be had without opening the file again. */
    ghost predicate Reusable(file: FileId)
      requires Valid()
      reads this, pool, created, resamplers
    {
      Snap().Reusable(file)
    }

    /** find_from_pool, the identity of the file known. v is where the stream
        stood in the queue. */
    method FindFromPool(file: FileId) returns (sp: Stream?, ghost v: nat)
      requires Valid() && mode == Pool
      modifies pool, `idle
      ensures sp != null <==> old(Reusable(file))
      ensures sp == null ==> Valid() && pool[..] == old(pool[..]) && idle == old(idle)
      ensures sp != null ==>
                sp.fid == file && sp in live && Holding(multiset{sp}) && TakenAt(old(Snap()), Snap(), sp, v)
    {
      hide Shaped, Conserved, Drop, Queue, Ticking, Pooled;
      sp, v := null, 0;
      var found := Search(file);
      ghost var slots, was := pool[..], idle;
      if found == -1 {
        PooledMissed(slots, was, file);
        return;
      }
      PooledFound(slots, was, file, found);
      sp := pool[found].stream;
      pool[found] := EMPTY;
      assert pool[..] == slots[found := EMPTY];
      BlankSlot(slots, was, found);
      if sp == null { return; }
      v := Position(slots, was, file, found);
      Leave(slots, was, v);
      assert sp in live by { InLive(live, entries, slots, multiset{}, found); }
      SlotToHand(live, entries, slots, multiset{}, found);
      idle := Drop(was, v);
      assert multiset{} + multiset{sp} == multiset{sp};
      assert pool[..] == slots[found := EMPTY];
    }

    /** hmscan with find_map: stops at the first stream with this identity, or
        at one whose identity cannot be had. */
    method ScanMap(file: FileId, unreadable: set<FileId>) returns (ok: bool, sp: Stream?)
      requires Valid() && mode == Cache
      ensures sp != null ==> ok && sp in live && sp.fid == file
      ensures ok && sp == null ==> forall s :: s in live ==> s.fid != file
      ensures !ok ==> exists s :: s in live && s.fid in unreadable
    {
      hide Holders;
      var todo := entries.Keys;
      while todo != {}
        invariant todo <= entries.Keys
        invariant forall k :: k in entries.Keys - todo ==> entries[k].stream.fid != file
        decreases |todo|
      {
        ghost var some := Inhabited(todo);
        var k :| k in todo;
        var s := entries[k].stream;
        if s.fid in unreadable { return false, null; }
        if s.fid == file { return true, s; }
        todo := todo - {k};
      }
      forall s | s in live ensures s.fid != file {
        var k := HeldByKey(entries, pool[..], s);
      }
      return true, null;
    }

    /** find_from_map. unreadable are the files whose identity cannot be
        had by handle. */
    method FindFromMap(file: FileId, unreadable: set<FileId>) returns (ok: bool, sp: Stream?)
      requires Valid() && mode == Cache
      modifies live
      ensures ok ==> (sp != null <==> old(Reusable(file)))
      ensures !ok ==> sp == null && exists s :: s in live && s.fid in unreadable
      ensures sp == null ==> Valid()
      ensures sp != null ==> sp.fid == file && sp in live && Holding(multiset{sp})
    {
      hide Holders, Shaped, Owned;
      ok, sp := ScanMap(file, unreadable);
      if !ok { return false, null; }
      if sp != null { sp.AddRef(); }
    }

    /** stream_create, when it succeeds. */
    method OpenStream(file: FileId) returns (sp: Stream)
      requires Valid() && !Reusable(file)
      modifies `live, `created
      ensures Holding(multiset{sp}) && fresh(sp) && sp.fid == file
      ensures live == old(live) + {sp} && created == old(created) + {sp}
    {
      hide Holders, Shaped, Owned;
      sp := new Stream(file);
      live, created := live + {sp}, created + {sp};
      HeldByNobody(old(live), entries, pool[..], sp);
    }

    lemma OwnNone(table: map<int, Entry>, k: int, sp: Stream)
      requires Owned(table) && k !in table
      ensures Owned(table[k := Entry(sp, null)])
    {
      var more := table[k := Entry(sp, null)];
      forall r | r in resamplers && r.destroyed != 1 ensures exists j :: j in more && more[j].resampler == r {
        var j :| j in table && table[j].resampler == r;
        assert more[j].resampler == r;
      }
    }

    /** hmset of a new entry. */
    method Insert(sp: Stream)
      requires Holding(multiset{sp})
      modifies `entries, `keyIndex
      ensures Valid() && keyIndex == old(keyIndex) + 1 && keyIndex !in old(entries)
      ensures entries == old(entries)[keyIndex := Entry(sp, null)]
    {
      hide Conserved, Shaped, Owned;
      assert keyIndex + 1 !in entries;
      ghost var slots := pool[..];
      keyIndex := keyIndex + 1;
      assert pool[..] == slots;
      OwnNone(entries, keyIndex, sp);
      assert multiset{} + multiset{sp} == multiset{sp};
      HandToKey(live, entries, pool[..], multiset{}, keyIndex, Entry(sp, null));
      entries := entries[keyIndex := Entry(sp, null)];
    }

    /** streammap_create_stream. known says whether the identity of the file
        can be had, opens whether stream_create succeeds. */
    method CreateStream(file: FileId, known: bool, unreadable: set<FileId>, opens: bool) returns (idx: Option<int>)
      requires Valid()
      modifies this, pool, live
      ensures Valid() && fresh(created - old(created))
      ensures Creation(old(Snap()), file, known, unreadable, opens, idx, Snap())
    {
      hide Shaped, Conserved, Owned, Pooled, Queue, Drop, Ticking;
      LiveWasCreated();
      ghost var before := Snap();
      var sp: Stream? := null;
      ghost var v: nat := 0;
      idx := None;
      if pool.Length != 0 {
        if !known { return None; }
        sp, v := FindFromPool(file);
        assert sp != null ==> TakenAt(before, Snap(), sp, v);
      }
      ghost var slots, queue := pool[..], idle;
      if sp == null && mode == Cache {
        if !known { return None; }
        var ok;
        ok, sp := FindFromMap(file, unreadable);
        if !ok { return None; }
      }
      if sp == null {
        if !opens { return None; }
        sp := OpenStream(file);
      }
      ghost var reused := sp in before.live;
      Insert(sp);
      idx := Some(keyIndex);
      assert pool[..] == slots && idle == queue;
      assert mode == Pool && reused ==> TakenAt(before, Snap(), sp, v);
    }

    // ---------------------------------------------- streams that are let go

    /** The scan of add_to_pool: the first blank slot, or else the one put back
        earliest. */
    method Vacancy() returns (unused: int, oldest: int)
      requires pool.Length > 0
      ensures unused != -1 ==>
                && 0 <= unused < pool.Length && pool[unused].stream == null
                && forall i :: 0 <= i < unused ==> pool[i].stream != null
      ensures unused == -1 ==> forall i :: 0 <= i < pool.Length ==> pool[i].stream != null
      ensures unused == -1 ==> Oldest(pool[..], oldest)
    {
      unused, oldest := -1, -1;
      for i := 0 to pool.Length
        invariant unused == -1 && forall j :: 0 <= j < i ==> pool[j].stream != null
        invariant if i == 0 then oldest == -1 else 0 <= oldest < i && Oldest(pool[..i], oldest)
      {
        if oldest == -1 || Later(pool[oldest].usedAt, pool[i].usedAt) { oldest := i; }
        if pool[i].stream == null { return i, oldest; }
      }
      assert pool[..pool.Length] == pool[..];
    }

    /** add_to_pool. clock says whether timespec_get succeeds, known whether the
        identity can be had; now is the time. */
    method AddToPool(s: Stream, clock: bool, known: bool, now: Timespec) returns (ok: bool)
      requires Holding(multiset{s}) && mode == Pool
      requires now.Nanos() > 0
      modifies pool, live, `idle, `live
      ensures ok <==> clock && known
      ensures !ok ==> Holding(multiset{s}) && pool[..] == old(pool[..]) && idle == old(idle) && live == old(live)
      ensures ok ==> Valid()
      ensures ok ==> exists j: nat :: JoinedAt(old(pool[..]), old(live), s, now, j, pool[..], live)
      ensures ok && old(Ticking(pool[..], idle)) && old(LaterThanAll(now, pool[..])) ==>
                && Ticking(pool[..], idle)
                && Queue(pool[..], idle) == Pushed(old(Queue(pool[..], idle)), s, pool.Length)
    {
      hide Shaped, Conserved, Drop, Queue, Ticking, Holders, Owned, LaterThanAll, Timespec.Nanos;
      if !clock || !known { return false; }
      var item := PoolItem(s.fid, now, s);
      var unused, oldest := Vacancy();
      ghost var slots, was := pool[..], idle;
      IdleCount(slots, was);
      if unused == -1 {
        var victim := pool[oldest].stream;
        ghost var v := Eldest(slots, was, oldest);
        Leave(slots, was, v);
        InLive(live, entries, slots, multiset{s}, oldest);
        SlotToHand(live, entries, slots, multiset{s}, oldest);
        HeadDropped(slots, was, v, oldest, now);
        slots, was := slots[oldest := EMPTY], Drop(was, v);
        Release(victim, entries, slots, multiset{s} + multiset{victim});
        assert multiset{s} + multiset{victim} - multiset{victim} == multiset{s};
        unused := oldest;
      }
      assert multiset{} + multiset{s} == multiset{s};
      pool[unused] := item;
      idle := was + [unused];
      assert pool[..] == slots[unused := item];
      Enter(slots, was, unused, item);
      HandToSlot(live, entries, slots, multiset{}, unused, item);
      assert pool[..] == old(pool[..])[unused := item];
      assert JoinedAt(old(pool[..]), old(live), s, now, unused, pool[..], live);
      return true;
    }

    /** resampler_destroy for an entry on its way out. */
    method Disown(table: map<int, Entry>, k: int)
      requires Owned(table) && k in table
      modifies resamplers
      ensures Owned(table - {k})
      ensures table[k].resampler != null ==> table[k].resampler.destroyed == 1
    {
      var rest := table - {k};
      var rp := table[k].resampler;
      if rp != null { rp.Destroy(); }
      forall r | r in resamplers && r.destroyed != 1
        ensures r.destroyed == 0 && exists j :: j in rest && rest[j].resampler == r
      {
        var j :| j in table && table[j].resampler == r;
        assert j in rest && rest[j].resampler == r;
      }
    }

    /** hmdelete and the end of the entry's resampler. */
    method Remove(idx: int) returns (s: Stream)
      requires Valid() && idx in entries
      modifies `entries, resamplers
      ensures Holding(multiset{s}) && s in live
      ensures entries == old(entries) - {idx} && s == old(entries[idx].stream)
      ensures old(entries[idx].resampler) != null ==> old(entries[idx].resampler).destroyed == 1
    {
      hide Shaped, Conserved, Owned;
      ghost var slots := pool[..];
      var e := entries[idx];
      KeyInLive(live, entries, slots, multiset{}, idx);
      Disown(entries, idx);
      KeyToHand(live, entries, slots, multiset{}, idx);
      entries := entries - {idx};
      assert multiset{} + multiset{e.stream} == multiset{e.stream};
      assert pool[..] == slots;
      return e.stream;
    }

    /** streammap_free_stream; clock, known and now as for AddToPool. */
    method FreeStream(idx: int, clock: bool, known: bool, now: Timespec) returns (ok: bool)
      requires Valid() && now.Nanos() > 0
      modifies this, pool, live, resamplers
      ensures Valid() && Freeing(old(Snap()), idx, clock, known, now, ok, Snap())
      ensures idx in old(entries) && old(entries[idx].resampler) != null ==> old(entries[idx].resampler).destroyed == 1
    {
      hide Shaped, Conserved, Owned, Ticking, Queue, Pushed, LaterThanAll, Oldest;
      if idx !in entries { return true; }
      var s := Remove(idx);
      if pool.Length == 0 {
        Release(s, entries, pool[..], multiset{s});
        assert multiset{s} - multiset{s} == multiset{};
        return true;
      }
      ok := AddToPool(s, clock, known, now);
      if !ok {
        Release(s, entries, pool[..], multiset{s});
        assert multiset{s} - multiset{s} == multiset{};
      }
    }

    /** get_stream_and_resampler; able says whether what a new resampler needs
        can be had. */
    method GetStreamAndResampler(idx: int, able: bool) returns (sp: Stream?, rp: Resampler?)
      requires Valid()
      modifies `entries, `resamplers
      ensures Valid() && fresh(resamplers - old(resamplers))
      ensures Lookup(old(Snap()), idx, able, sp, rp, Snap())
    {
      hide Shaped, Conserved;
      if idx !in entries { return null, null; }
      var si := entries[idx];
      if si.resampler == null {
        if !able { return null, null; }
        rp := new Resampler();
        ghost var slots := pool[..];
        KeyToHand(live, entries, slots, multiset{}, idx);
        HandToKey(live, entries - {idx}, slots, multiset{}, idx, si.(resampler := rp));
        assert (entries - {idx})[idx := si.(resampler := rp)] == entries[idx := si.(resampler := rp)];
        resamplers := resamplers + {rp};
        entries := entries[idx := si.(resampler := rp)];
        assert pool[..] == slots && Counted(entries, slots, multiset{});
        forall r | r in resamplers && r.destroyed != 1
          ensures r.destroyed == 0 && exists k :: k in entries && entries[k].resampler == r
        {
          if r == rp {
            assert entries[idx].resampler == r;
          } else {
            var k :| k in old(entries) && old(entries)[k].resampler == r;
            assert entries[k].resampler == r;
          }
        }
      }
      return si.stream, entries[idx].resampler;
    }

    /** The pool's half of streammap_destroy. */
    method DrainPool() returns (ghost slots: seq<PoolItem>)
      requires Valid()
      modifies live, `live
      ensures live <= old(live) && Counted(entries, slots, multiset{}) && Owned(entries)
      ensures forall i :: 0 <= i < |slots| ==> slots[i].stream == null
    {
      hide Conserved, Owned, Shaped;
      slots := pool[..];
      for i := 0 to pool.Length
        invariant live <= old(live) && Counted(entries, slots, multiset{}) && Owned(entries)
        invariant |slots| == pool.Length && forall j :: i <= j < |slots| ==> slots[j] == pool[j]
        invariant forall j :: 0 <= j < i ==> slots[j].stream == null
      {
        var s := pool[i].stream;
        if s != null {
          InLive(live, entries, slots, multiset{}, i);
          SlotToHand(live, entries, slots, multiset{}, i);
          slots := slots[i := EMPTY];
          assert multiset{} + multiset{s} == multiset{s} && multiset{s} - multiset{s} == multiset{};
          Release(s, entries, slots, multiset{s});
        }
      }
    }

    /** streammap_destroy: every stream that was ever opened has been closed
        exactly once, and every resampler likewise. */
    method Destroy()
      requires Valid()
      modifies live, resamplers, `live
      ensures forall s :: s in created ==> s.closed == 1
      ensures forall r :: r in resamplers ==> r.destroyed == 1
    {
      hide Conserved, Owned, Shaped;
      ghost var slots := DrainPool();
      var rest := entries;
      while rest.Keys != {}
        invariant live <= old(live) && Counted(rest, slots, multiset{}) && Owned(rest)
        decreases |rest.Keys|
      {
        ghost var some := Inhabited(rest.Keys);
        var k :| k in rest.Keys;
        var s := rest[k].stream;
        KeyInLive(live, rest, slots, multiset{}, k);
        KeyToHand(live, rest, slots, multiset{}, k);
        Disown(rest, k);
        assert (rest - {k}).Keys == rest.Keys - {k};
        rest := rest - {k};
        assert multiset{} + multiset{s} == multiset{s} && multiset{s} - multiset{s} == multiset{};
        Release(s, rest, slots, multiset{s});
      }
      assert rest == map[];
      NothingHeld(live, slots);
      NothingOwned();
    }

    lemma LiveWasCreated()
      requires Valid()
      ensures live <= created
    {
    }

    /** What Valid says of a moment. */
    lemma ValidIsSane()
      requires Valid()
      ensures Snap().Sane()
    {
      hide Holders, Shaped, Owned, Snapshot.Held;
      ghost var slots := pool[..];
      forall s | s in live ensures Snap().Held(s) { SomethingHolds(Snap(), s); }
      OwnedApart(entries);
    }

    lemma OwnedApart(table: map<int, Entry>)
      requires Owned(table)
      ensures forall k, j :: k in table && j in table && k != j && table[k].resampler != null ==>
                table[k].resampler != table[j].resampler
    {
    }

    /** One operation of the plugin, with what the system makes of it. */
    method Happen(e: Event) returns (o: Outcome)
      requires Valid() && (e.Frees? ==> e.now.Nanos() > 0)
      modifies this, pool, created, resamplers
      ensures Valid() && fresh(created - old(created)) && fresh(resamplers - old(resamplers))
      ensures Stepped(old(Snap()), e, o, Snap())
    {
      LiveWasCreated();
      ValidIsSane();
      match e {
        case Creates(file, known, unreadable, opens) =>
          var idx := CreateStream(file, known, unreadable, opens);
          o := Created(idx);
        case Gets(idx, able) =>
          var sp, rp := GetStreamAndResampler(idx, able);
          o := Got(sp, rp);
        case Frees(idx, clock, known, now) =>
          var ok := FreeStream(idx, clock, known, now);
          o := Freed(ok);
      }
      ValidIsSane();
    }

    lemma NothingOwned()
      requires Owned(map[])
      ensures forall r :: r in resamplers ==> r.destroyed == 1
    {
    }
  }

  // ------------------------------------------------ whole runs

  datatype Event =
    | Creates(file: FileId, known: bool, unreadable: set<FileId>, opens: bool)
    | Gets(idx: int, able: bool)
    | Frees(idx: int, clock: bool, known: bool, now: Timespec)

  /** What the operation returned. */
  datatype Outcome = Created(idx: Option<int>) | Got(stream: Stream?, resampler: Resampler?) | Freed(ok: bool)

  /** The operation took the map from before to after and returned o. */
  ghost predicate Stepped(before: Snapshot, e: Event, o: Outcome, after: Snapshot) {
    && before.Sane() && after.Sane()
    && match e
       case Creates(file, known, unreadable, opens) =>
         o.Created? && Creation(before, file, known, unreadable, opens, o.idx, after)
       case Gets(idx, able) => o.Got? && Lookup(before, idx, able, o.stream, o.resampler, after)
       case Frees(idx, clock, known, now) => o.Freed? && Freeing(before, idx, clock, known, now, o.ok, after)
  }

  /** Any life of a map, from its creation to its end, with what each operation
      returned and the map between them: every stream that was opened on the way
      has been closed exactly once, every resampler destroyed exactly once. */
  method Life(mode: Mode, events: seq<Event>)
    returns (smp: StreamMap, log: seq<Outcome>, ghost trace: seq<Snapshot>)
    requires forall e :: e in events && e.Frees? ==> e.now.Nanos() > 0
    ensures |log| == |events| && |trace| == |events| + 1
    ensures trace[0] == Blank(mode)
    ensures forall n :: 0 <= n < |events| ==> Stepped(trace[n], events[n], log[n], trace[n + 1])
    ensures smp.created == trace[|events|].created && forall s :: s in smp.created ==> s.closed == 1
    ensures smp.resamplers == trace[|events|].resamplers && forall r :: r in smp.resamplers ==> r.destroyed == 1
  {
    hide StreamMap.Valid, Stepped, Ticking;
    smp := new StreamMap(mode);
    log, trace := [], [smp.Snap()];
    for n := 0 to |events|
      invariant smp.Valid() && fresh(smp) && fresh(smp.pool) && fresh(smp.created) && fresh(smp.resamplers)
      invariant |log| == n && |trace| == n + 1 && trace[n] == smp.Snap()
      invariant trace[0] == Blank(mode)
      invariant forall m :: 0 <= m < n ==> Stepped(trace[m], events[m], log[m], trace[m + 1])
    {
      var o := smp.Happen(events[n]);
      log, trace := log + [o], trace + [smp.Snap()];
    }
    smp.LiveWasCreated();
    smp.Destroy();
  }
}
