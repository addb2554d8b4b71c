/** The audio index built by a background thread while readers look packets up
    (audioidx.c). Every step is one critical section of the index mutex, or what
    the indexer does between two of them. */
module AudioIndex {
  import opened Wrappers

  /** An audio packet: its timestamp and the samples it decodes to. */
  datatype Packet = Packet(pts: int, samples: nat)

  /** The packets of the audio stream, and the sample position of the first. */
  datatype Source = Source(packets: seq<Packet>, first: int) {
    ghost predicate Valid() {
      && (forall i :: 0 <= i < |packets| ==> AV_NOPTS_VALUE < packets[i].pts < INT64_MAX)
      && (forall i, j :: 0 <= i < j < |packets| ==> packets[i].pts < packets[j].pts)
    }

    /** Where packet k starts. */
    function Start(k: nat): int
      requires k <= |packets|
    {
      if k == 0 then first else Start(k - 1) + packets[k - 1].samples
    }

    /** The index entries of the first k packets. */
    function Prefix(k: nat): map<int, int>
      requires k <= |packets|
    {
      if k == 0 then map[] else Prefix(k - 1)[packets[k - 1].pts := Start(k - 1)]
    }
  }

  datatype Indexer =
    | Absent
    | Opening
    | Indexing
    | Finishing   // has left the loop, about to lock for the last time
    | Ended

  datatype State = State(
    ptsmap: map<int, int>,
    createdPts: int,
    samples: int,       // the indexer's running total
    processed: nat,     // packets the indexer has read
    indexer: Indexer,
    running: bool,      // indexer_running
    failed: bool,       // the indexer left its loop with an error
    asleep: nat)        // readers in cnd_wait

  function Init(src: Source): State {
    State(map[], AV_NOPTS_VALUE, src.first, 0, Absent, false, false, 0)
  }

  datatype Action =
    | Start            // audioidx_get starts the thread and waits for it
    | OpenResult(ok: bool)
    | ReadPacket(notify: bool)  // notify: the progress interval is over
    | EndOfFile
    | ReadError
    | Finish           // created_pts = INT64_MAX
    | Sleep(pts: int)  // audioidx_get waits for a packet not yet indexed
    | Stop             // audioidx_destroy clears indexer_running

  predicate Enabled(src: Source, s: State, a: Action) {
    match a
    case Start => !s.running && s.indexer.Absent?
    case OpenResult(_) => s.indexer.Opening?
    case ReadPacket(_) => s.indexer.Indexing? && s.processed < |src.packets|
    case EndOfFile => s.indexer.Indexing? && s.processed == |src.packets|
    case ReadError => s.indexer.Indexing?
    case Finish => s.indexer.Finishing?
    case Sleep(pts) => !s.indexer.Absent? && s.createdPts < pts
    case Stop => s.running
  }

  /** cnd_signal: one of the readers wakes up, and looks again. */
  function Signal(s: State): State {
    s.(asleep := if s.asleep == 0 then 0 else s.asleep - 1)
  }

  function Apply(src: Source, s: State, a: Action): State
    requires Enabled(src, s, a)
  {
    match a
    case Start => s.(running := true, indexer := Opening, asleep := s.asleep + 1)
    case OpenResult(ok) => if ok then Signal(s).(indexer := Indexing) else s.(indexer := Finishing, failed := true)
    case ReadPacket(notify) =>
      var p := src.packets[s.processed];
      if p.samples == 0 then s.(indexer := Finishing, failed := true)
      else
        (if notify then Signal(s) else s).(
          ptsmap := s.ptsmap[p.pts := s.samples], createdPts := p.pts, samples := s.samples + p.samples,
          processed := s.processed + 1, indexer := if s.running then Indexing else Finishing)
    case EndOfFile => s.(indexer := Finishing)
    case ReadError => s.(indexer := Finishing, failed := true)
    case Finish => Signal(s).(indexer := Ended, createdPts := INT64_MAX)
    case Sleep(_) => s.(asleep := s.asleep + 1)
    case Stop => s.(running := false)
  }

  function Exec(src: Source, actions: seq<Action>): Option<State> {
    if actions == [] then Some(Init(src))
    else
      var last := |actions| - 1;
      match Exec(src, actions[..last])
      case None => None
      case Some(s) => if Enabled(src, s, actions[last]) then Some(Apply(src, s, actions[last])) else None
  }

  /** audioidx_get with wait_index returns only then; without it, at any time. */
  predicate MayReturn(s: State, pts: int, wait: bool) {
    wait ==> s.createdPts >= pts
  }

  /** What the lookup in a map returns. */
  function Lookup(m: map<int, int>, pts: int): int {
    if pts in m then m[pts] else -1
  }

  ghost predicate Inv(src: Source, s: State) {
    && s.processed <= |src.packets|
    && s.ptsmap == src.Prefix(s.processed) && s.samples == src.Start(s.processed)
    && s.createdPts == (if s.indexer.Ended? then INT64_MAX
                        else if s.processed == 0 then AV_NOPTS_VALUE
                        else src.packets[s.processed - 1].pts)
    && (s.indexer.Absent? || s.indexer.Opening? ==> s.processed == 0 && !s.failed)
    && (s.indexer.Absent? ==> !s.running)
    && ((s.indexer.Finishing? || s.indexer.Ended?) && s.running && !s.failed ==> s.processed == |src.packets|)
  }

  lemma StepKeeps(src: Source, s: State, a: Action)
    requires src.Valid() && Inv(src, s) && Enabled(src, s, a)
    ensures Inv(src, Apply(src, s, a))
  {
  }

  lemma {:induction false} RunKeeps(src: Source, actions: seq<Action>)
    requires src.Valid() && Exec(src, actions).Some?
    ensures Inv(src, Exec(src, actions).value)
    decreases |actions|
  {
    if actions != [] {
      var last := |actions| - 1;
      RunKeeps(src, actions[..last]);
      StepKeeps(src, Exec(src, actions[..last]).value, actions[last]);
    }
  }

  lemma {:induction false} KeyBound(src: Source, k: nat, pts: int)
    requires src.Valid() && k <= |src.packets| && pts in src.Prefix(k)
    ensures k > 0 && pts <= src.packets[k - 1].pts
  {
    if k > 1 && pts != src.packets[k - 1].pts { KeyBound(src, k - 1, pts); }
  }

  /** Indexing further packets changes nothing up to the last one indexed. */
  lemma {:induction false} SameBelow(src: Source, k: nat, n: nat, pts: int)
    requires src.Valid() && 0 < k <= n <= |src.packets| && pts <= src.packets[k - 1].pts
    ensures Lookup(src.Prefix(n), pts) == Lookup(src.Prefix(k), pts)
  {
    if n > k {
      assert src.packets[k - 1].pts < src.packets[n - 1].pts;
      SameBelow(src, k, n - 1, pts);
    }
  }

  /** The complete index holds exactly the packets, each with its position. */
  lemma {:induction false} CompleteIndex(src: Source, k: nat, pts: int)
    requires src.Valid() && k <= |src.packets|
    ensures forall i :: 0 <= i < k && src.packets[i].pts == pts ==>
                          pts in src.Prefix(k) && src.Prefix(k)[pts] == src.Start(i)
    ensures pts in src.Prefix(k) ==> exists i :: 0 <= i < k && src.packets[i].pts == pts
  {
    if k > 0 {
      CompleteIndex(src, k - 1, pts);
      assert forall i :: 0 <= i < k - 1 ==> src.packets[i].pts < src.packets[k - 1].pts;
    }
  }

  /** What a lookup in the complete index returns: where the first packet starts,
      for each further packet as many samples after the one before as that one
      has, and -1 for anything else. */
  lemma CompleteLookup(src: Source, pts: int)
    requires src.Valid()
    ensures var index := src.Prefix(|src.packets|);
            && (forall i :: 0 <= i < |src.packets| && src.packets[i].pts == pts ==>
                  Lookup(index, pts) == if i == 0 then src.first
                                        else Lookup(index, src.packets[i - 1].pts) + src.packets[i - 1].samples)
            && ((forall i :: 0 <= i < |src.packets| ==> src.packets[i].pts != pts) ==> Lookup(index, pts) == -1)
  {
    CompleteIndex(src, |src.packets|, pts);
    forall i | 0 < i < |src.packets| && src.packets[i].pts == pts
      ensures Lookup(src.Prefix(|src.packets|), src.packets[i - 1].pts) == src.Start(i - 1)
    {
      CompleteIndex(src, |src.packets|, src.packets[i - 1].pts);
    }
  }

  /** Under every interleaving a lookup returns what the complete index would,
      or -1. */
  lemma LookupSound(src: Source, actions: seq<Action>, pts: int)
    requires src.Valid() && Exec(src, actions).Some?
    ensures var r := Lookup(Exec(src, actions).value.ptsmap, pts);
            r == Lookup(src.Prefix(|src.packets|), pts) || r == -1
  {
    RunKeeps(src, actions);
    var k := Exec(src, actions).value.processed;
    if pts in src.Prefix(k) {
      KeyBound(src, k, pts);
      SameBelow(src, k, |src.packets|, pts);
    }
  }

  /** A waiting lookup that may return finds what the complete index holds,
      unless the indexer failed or the index is being destroyed. */
  lemma WaitingLookupComplete(src: Source, actions: seq<Action>, pts: int)
    requires src.Valid() && Exec(src, actions).Some? && AV_NOPTS_VALUE < pts < INT64_MAX
    requires var s := Exec(src, actions).value; MayReturn(s, pts, true) && s.running && !s.failed
    ensures Lookup(Exec(src, actions).value.ptsmap, pts) == Lookup(src.Prefix(|src.packets|), pts)
  {
    RunKeeps(src, actions);
    var s := Exec(src, actions).value;
    if !s.indexer.Ended? { SameBelow(src, s.processed, |src.packets|, pts); }
  }

  /** The last signal of the indexer wakes one reader, and no reader falls asleep
      after it: all of them return exactly when no more than one was asleep. */
  lemma {:induction false} LastSignalIff(src: Source, before: seq<Action>, after: seq<Action>)
    requires src.Valid() && Exec(src, before + [Finish] + after).Some?
    requires forall a :: a in after && a.Sleep? ==> a.pts <= INT64_MAX
    ensures Exec(src, before).Some?
    ensures Exec(src, before + [Finish] + after).value.indexer == Ended
    ensures Exec(src, before + [Finish] + after).value.asleep == 0 <==> Exec(src, before).value.asleep <= 1
  {
    hide Exec, Apply, Enabled, Inv, Source.Valid;
    if after == [] {
      assert before + [Finish] + after == before + [Finish];
      ExecSteps(src, before, Finish);
      FinishWakesOne(src, Exec(src, before).value);
    } else {
      var last := |after| - 1;
      var rest := before + [Finish] + after[..last];
      assert before + [Finish] + after == rest + [after[last]];
      ExecSteps(src, rest, after[last]);
      LastSignalIff(src, before, after[..last]);
      RunKeeps(src, rest);
      StillEnded(src, Exec(src, rest).value, after[last]);
    }
  }

  /** More than one can be: here two readers wait for a packet of an empty file,
      and one of them is left asleep. */
  lemma OneSleepsOn()
    ensures var run := Exec(Source([], 0), [Start, OpenResult(true), Sleep(0), Sleep(0), EndOfFile, Finish]);
            run.Some? && run.value.indexer == Ended && run.value.asleep == 1
  {
    hide Exec;
    var src := Source([], 0);
    Launch(src);
    var r, s := Next(src, [], Init(src), Start);
    r, s := Next(src, r, s, OpenResult(true));
    r, s := Next(src, r, s, Sleep(0));
    r, s := Next(src, r, s, Sleep(0));
    r, s := Next(src, r, s, EndOfFile);
    r, s := Next(src, r, s, Finish);
    assert r == [Start, OpenResult(true), Sleep(0), Sleep(0), EndOfFile, Finish];
  }

  lemma Launch(src: Source)
    ensures Exec(src, []) == Some(Init(src))
  {
  }

  /** One more step of a run. */
  lemma Next(src: Source, actions: seq<Action>, s: State, a: Action) returns (actions': seq<Action>, s': State)
    requires Exec(src, actions) == Some(s) && Enabled(src, s, a)
    ensures actions' == actions + [a] && s' == Apply(src, s, a) && Exec(src, actions') == Some(s')
  {
    ExecSteps(src, actions, a);
    actions', s' := actions + [a], Apply(src, s, a);
  }

  lemma ExecSteps(src: Source, actions: seq<Action>, a: Action)
    ensures Exec(src, actions + [a]) ==
            match Exec(src, actions)
            case None => None
            case Some(s) => if Enabled(src, s, a) then Some(Apply(src, s, a)) else None
  {
    assert (actions + [a])[..|actions|] == actions;
  }

  lemma FinishWakesOne(src: Source, s: State)
    requires Enabled(src, s, Finish)
    ensures Apply(src, s, Finish).indexer == Ended && (Apply(src, s, Finish).asleep == 0 <==> s.asleep <= 1)
  {
  }

  lemma StillEnded(src: Source, s: State, a: Action)
    requires Inv(src, s) && s.indexer == Ended && Enabled(src, s, a) && (a.Sleep? ==> a.pts <= INT64_MAX)
    ensures Apply(src, s, a).indexer == Ended && Apply(src, s, a).asleep == s.asleep
  {
  }

  /** Every waiting lookup can return once the indexer has ended. */
  lemma EndedReleasesWaiters(src: Source, actions: seq<Action>, pts: int)
    requires src.Valid() && Exec(src, actions).Some? && pts <= INT64_MAX
    requires Exec(src, actions).value.indexer.Ended?
    ensures MayReturn(Exec(src, actions).value, pts, true)
  {
    RunKeeps(src, actions);
  }
}
