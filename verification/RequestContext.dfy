/** The request context shared by a client's worker thread, the handlers it
    calls and a cancelling shutdown (ipcserver.c internal_context). Every step
    is what one thread does between two points where others may get in. */
module RequestContext {
  import opened Wrappers

  /** Where client_worker is. */
  datatype Worker =
    | Starting   // has not made its context yet: cli->cv is NULL
    | Top        // about to look at closing
    | Idle       // about to read a request
    | Reading    // has made room for the payload, about to read it
    | Received   // about to lock and call the handler
    | Waiting    // in cndvar_wait_while
    | Replying   // about to write the reply
    | Leaving    // at cleanup
    | Unmapped   // has taken its client out of the map
    | Released   // has released the context
    | Done       // has freed its client

  /** Where ipcserver_destroy is with this client. */
  datatype Canceller =
    | Serving      // has not begun
    | Closing      // has set closing
    | Picked       // hmscan has read the client from the map
    | Signalled    // cancel_client has locked cli->cv and signalled
    | Interrupted  // has called CancelSynchronousIo
    | Unlocked     // has unlocked cli->cv
    | Joining      // has called thrd_join

  datatype State = State(
    worker: Worker,
    canceller: Canceller,
    locked: bool,      // cancel_client holds the lock of ictx->cv
    count: int,        // ictx->count
    signal: nat,       // ictx->cv.var: 0 none, 1 finished, 2 failed, 3 cancelled
    failed: bool,      // ictx->err
    bufferSize: nat,   // public_ctx.buffer_size
    realSize: nat,     // real_buffer_size, what is allocated
    running: nat,      // handler calls that have not called finish
    releasing: nat,    // finish calls that have signalled but not released
    calls: nat,        // handler calls so far
    finishes: nat,     // finish signals so far
    replies: nat,      // replies written so far
    freed: nat,        // how often the context was freed
    strays: nat)       // steps of cancel_client with a client or context that is not there

  const INIT: State := State(Starting, Serving, false, 0, 0, false, 0, 0, 0, 0, 0, 0, 0, 0, 0)

  datatype Action =
    | Setup                    // make the context and set cli->cv
    | LookAtClosing            // leave the loop if closing is set
    | Receive(size: nat)       // read the size of a request and make room
    | ReceivePayload           // read its payload
    | Call                     // reset the signal, add a reference, call the handler
    | HandlerGrow(size: nat)   // grow_buffer by the handler
    | Finish(failed: bool)     // finish: set err and signal
    | FinishRelease            // finish: give up the reference
    | Wake                     // the wait ends
    | Reply(size: nat)         // write the reply; size is that of an error reply
    | Leave                    // the handshake or the pipe failed, or was cancelled
    | Unmap                    // cleanup: hmdelete
    | WorkerRelease            // cleanup: give up the reference
    | FreeClient               // cleanup: mem_free
    | BeginClose               // ipcserver_destroy: set closing
    | Pick                     // ipcserver_destroy: hmscan comes to this client
    | CancelSignal             // cancel_client: lock cli->cv and signal 3
    | CancelIo                 // cancel_client: CancelSynchronousIo on cli->th
    | Unlock                   // cancel_client: unlock cli->cv
    | Join                     // cancel_client: thrd_join on cli->th

  predicate Mapped(s: State) {
    s.worker !in {Unmapped, Released, Done}
  }

  /** The client that cancel_client is about to use exists. */
  predicate ClientPresent(s: State) {
    s.worker != Done
  }

  /** And so does the context that it is about to reach through the client. */
  predicate Present(s: State) {
    ClientPresent(s) && s.worker != Starting && s.freed == 0
  }

  predicate Enabled(s: State, a: Action) {
    match a
    case Setup => s.worker == Starting
    case LookAtClosing => s.worker == Top
    case Receive(_) => s.worker == Idle
    case ReceivePayload => s.worker == Reading
    case Call => s.worker == Received && !s.locked
    case HandlerGrow(_) => s.running > 0
    case Finish(_) => s.running > 0 && !s.locked
    case FinishRelease => s.releasing > 0
    case Wake => s.worker == Waiting && s.signal != 0 && !s.locked
    case Reply(_) => s.worker == Replying
    case Leave => s.worker in {Top, Idle, Reading, Replying}
    case Unmap => s.worker == Leaving
    case WorkerRelease => s.worker == Unmapped
    case FreeClient => s.worker == Released
    case BeginClose => s.canceller == Serving
    case Pick => s.canceller == Closing && Mapped(s)
    case CancelSignal => s.canceller == Picked
    case CancelIo => s.canceller == Signalled
    case Unlock => s.canceller == Interrupted
    case Join => s.canceller == Unlocked
  }

  /** ipcserver_context_grow_buffer. */
  function Grow(s: State, size: nat): State {
    s.(bufferSize := size, realSize := if s.realSize < size then size else s.realSize)
  }

  /** internal_context_release. */
  function Release(s: State): State {
    s.(count := s.count - 1, freed := if s.count == 1 then s.freed + 1 else s.freed)
  }

  /** One more step with what is not there, unless it is. */
  function Touch(s: State, there: bool): State {
    if there then s else s.(strays := s.strays + 1)
  }

  /** Steps of cancel_client that miss the client or the context do nothing else
      here; in the code anything may come of them. */
  function Apply(s: State, a: Action): State
    requires Enabled(s, a)
  {
    match a
    case Setup => s.(worker := Top, count := 1)
    case LookAtClosing => s.(worker := if s.canceller == Serving then Idle else Leaving)
    case Receive(size) => Grow(s, size).(worker := Reading)
    case ReceivePayload => s.(worker := Received)
    case Call =>
      s.(worker := Waiting, signal := 0, count := s.count + 1, running := s.running + 1, calls := s.calls + 1)
    case HandlerGrow(size) => Grow(s, size)
    case Finish(failed) =>
      s.(failed := failed, signal := if failed then 2 else 1,
         running := s.running - 1, releasing := s.releasing + 1, finishes := s.finishes + 1)
    case FinishRelease => Release(s.(releasing := s.releasing - 1))
    case Wake => s.(worker := if s.signal == 3 then Leaving else Replying, signal := 0)
    case Reply(size) =>
      (if s.failed then Grow(s, size) else s).(worker := Top, failed := false, replies := s.replies + 1)
    case Leave => s.(worker := Leaving)
    case Unmap => s.(worker := Unmapped)
    case WorkerRelease => Release(s.(worker := Released))
    case FreeClient => s.(worker := Done)
    case BeginClose => s.(canceller := Closing)
    case Pick => s.(canceller := Picked)
    case CancelSignal =>
      var there := Present(s);
      Touch(s, there).(canceller := Signalled, locked := there, signal := if there then 3 else s.signal)
    case CancelIo => Touch(s, ClientPresent(s)).(canceller := Interrupted)
    case Unlock => Touch(s, Present(s)).(canceller := Unlocked, locked := s.locked && !Present(s))
    case Join => Touch(s, ClientPresent(s)).(canceller := Joining)
  }

  /** The state after an interleaving, if every step of it was possible. */
  function Exec(actions: seq<Action>): Option<State> {
    if actions == [] then Some(INIT)
    else
      var last := |actions| - 1;
      match Exec(actions[..last])
      case None => None
      case Some(s) => if Enabled(s, actions[last]) then Some(Apply(s, actions[last])) else None
  }

  lemma ExecSteps(actions: seq<Action>, a: Action)
    ensures Exec(actions + [a]) ==
            if Exec(actions).Some? && Enabled(Exec(actions).value, a) then Some(Apply(Exec(actions).value, a)) else None
  {
    assert (actions + [a])[..|actions|] == actions;
  }

  lemma Start()
    ensures Exec([]) == Some(INIT)
  {
  }

  /** One more step of a run. */
  lemma Next(actions: seq<Action>, s: State, a: Action) returns (actions': seq<Action>, s': State)
    requires Exec(actions) == Some(s) && Enabled(s, a)
    ensures actions' == actions + [a] && s' == Apply(s, a) && Exec(actions') == Some(s')
  {
    ExecSteps(actions, a);
    actions', s' := actions + [a], Apply(s, a);
  }

  /** Who holds the context, and that it is freed when nobody does. */
  ghost predicate Counted(s: State) {
    && s.count == (if s.worker in {Starting, Released, Done} then 0 else 1) + s.running + s.releasing
    && s.freed == (if s.worker != Starting && s.count == 0 then 1 else 0)
    && (s.worker == Starting ==> s.running == s.releasing == 0)
    && s.bufferSize <= s.realSize
  }

  /** The lock is held from the signal to the unlocking, unless that misses. */
  ghost predicate Held(s: State) {
    && (s.locked ==> s.worker != Starting && s.canceller !in {Serving, Closing, Picked})
    && (s.locked ==> s.canceller in {Signalled, Interrupted} || s.worker in {Released, Done})
  }

  /** Which of the handler calls has been finished and answered. */
  ghost predicate Ordered(s: State) {
    && s.running <= 1 && s.finishes + s.running == s.calls
    && (s.worker in {Starting, Top, Idle, Reading, Received} ==> s.running == 0 && s.replies == s.calls)
    && (s.worker in {Waiting, Replying} ==> s.replies + 1 == s.calls)
    && (s.worker == Replying ==> s.running == 0)
    && (s.worker == Waiting ==> if s.running == 0 then s.signal != 0 else s.signal in {0, 3})
  }

  ghost predicate Inv(s: State) {
    Counted(s) && Ordered(s) && Held(s)
  }

  lemma StepKeepsCounts(s: State, a: Action)
    requires Counted(s) && Ordered(s) && Enabled(s, a)
    ensures Counted(Apply(s, a))
  {
    hide Present, ClientPresent;
  }

  lemma StepKeepsOrder(s: State, a: Action)
    requires Ordered(s) && Enabled(s, a)
    ensures Ordered(Apply(s, a))
  {
    hide Present;
  }

  lemma StepKeepsLock(s: State, a: Action)
    requires Counted(s) && Held(s) && Enabled(s, a)
    ensures Held(Apply(s, a))
  {
  }

  lemma StepKeeps(s: State, a: Action)
    requires Inv(s) && Enabled(s, a)
    ensures Inv(Apply(s, a))
  {
    hide Counted, Ordered, Held, Apply;
    StepKeepsCounts(s, a);
    StepKeepsOrder(s, a);
    StepKeepsLock(s, a);
  }

  lemma {:induction false} RunKeeps(actions: seq<Action>)
    requires Exec(actions).Some?
    ensures Inv(Exec(actions).value)
  {
    if actions != [] {
      var last := |actions| - 1;
      RunKeeps(actions[..last]);
      StepKeeps(Exec(actions[..last]).value, actions[last]);
    }
  }

  /** Under every interleaving the count is the worker, from when it has made the
      context until it gives up its reference, plus the handlers that have not
      let go; the context is freed once, exactly when all of them have. */
  lemma FreedOnce(actions: seq<Action>)
    requires Exec(actions).Some?
    ensures var s := Exec(actions).value;
            && s.count == (if s.worker in {Starting, Released, Done} then 0 else 1) + s.running + s.releasing
            && s.freed <= 1
            && (s.freed == 1 <==> s.worker in {Released, Done} && s.running == 0 && s.releasing == 0)
  {
    RunKeeps(actions);
  }

  /** What the worker and its handlers do with the context. */
  predicate UsesContext(a: Action) {
    || a.Receive? || a.ReceivePayload? || a.Call? || a.HandlerGrow? || a.Finish? || a.FinishRelease? || a.Wake?
    || a.Reply? || a.WorkerRelease?
  }

  /** Neither the worker nor a handler can use a freed context. */
  lemma NoStepAfterFree(actions: seq<Action>, a: Action)
    requires Exec(actions).Some? && Enabled(Exec(actions).value, a) && UsesContext(a)
    ensures Exec(actions).value.freed == 0
  {
    RunKeeps(actions);
  }

  /** A reply is written only after the handler called for that very request has
      finished, and neither it nor the next request touches the buffer while a
      handler may; the size written never exceeds the allocation. */
  lemma ReplyAfterFinish(actions: seq<Action>)
    requires Exec(actions).Some?
    ensures var s := Exec(actions).value;
            && s.bufferSize <= s.realSize
            && (s.worker == Replying ==> s.finishes == s.calls == s.replies + 1)
            && (s.worker in {Top, Idle, Reading, Received, Replying} ==> s.running == 0)
  {
    RunKeeps(actions);
  }

  /** What a handler finished with stands until the reply: it is an error exactly
      when the handler failed. */
  lemma {:induction false} OutcomeStands(before: seq<Action>, failed: bool, between: seq<Action>)
    requires Exec(before + [Finish(failed)] + between).Some?
    requires forall a :: a in between ==> !a.Finish? && !a.Reply?
    ensures Exec(before + [Finish(failed)] + between).value.failed == failed
  {
    if between == [] {
      assert before + [Finish(failed)] + between == before + [Finish(failed)];
      ExecSteps(before, Finish(failed));
    } else {
      var last := |between| - 1;
      var rest := before + [Finish(failed)] + between[..last];
      assert before + [Finish(failed)] + between == rest + [between[last]];
      ExecSteps(rest, between[last]);
      OutcomeStands(before, failed, between[..last]);
      KeepsOutcome(Exec(rest).value, between[last]);
    }
  }

  lemma KeepsOutcome(s: State, a: Action)
    requires Enabled(s, a) && !a.Finish? && !a.Reply?
    ensures Apply(s, a).failed == s.failed
  {
  }

  /** A waiting worker is stuck only as long as its handler runs, or while
      cancel_client holds the lock. */
  lemma WaitEnds(actions: seq<Action>)
    requires Exec(actions).Some? && Exec(actions).value.worker == Waiting
    ensures var s := Exec(actions).value;
            && (Enabled(s, Wake) <==> !s.locked && (s.running == 0 || s.signal == 3))
            && (s.locked ==> s.canceller in {Signalled, Interrupted})
  {
    RunKeeps(actions);
  }

  // ------------------------------------------------ what the shutdown touches

  /** How far the worker has got can be told from what has happened. */
  ghost predicate Tells(actions: seq<Action>, s: State) {
    && (Setup in actions <==> s.worker != Starting)
    && (Unmap in actions <==> !Mapped(s))
    && (WorkerRelease in actions <==> s.worker in {Released, Done})
    && (FreeClient in actions <==> s.worker == Done)
  }

  lemma {:induction false} History(actions: seq<Action>)
    requires Exec(actions).Some?
    ensures Tells(actions, Exec(actions).value)
  {
    if actions != [] {
      hide Tells;
      var last := |actions| - 1;
      History(actions[..last]);
      TellsNext(actions[..last], Exec(actions[..last]).value, actions[last]);
      assert actions == actions[..last] + [actions[last]];
    } else {
      Start();
    }
  }

  lemma TellsNext(actions: seq<Action>, s: State, a: Action)
    requires Tells(actions, s) && Enabled(s, a)
    ensures Tells(actions + [a], Apply(s, a))
  {
    hide Present, Grow, Release;
    assert forall b :: b in actions + [a] <==> b in actions || b == a;
    WorkerMoves(s, a);
  }

  /** What each step does to the worker. */
  lemma WorkerMoves(s: State, a: Action)
    requires Enabled(s, a)
    ensures a == Setup <==> s.worker == Starting && Apply(s, a).worker != Starting
    ensures s.worker != Starting ==> Apply(s, a).worker != Starting
    ensures a == Unmap ==> s.worker == Leaving && Apply(s, a).worker == Unmapped
    ensures a == WorkerRelease ==> s.worker == Unmapped && Apply(s, a).worker == Released
    ensures a == FreeClient ==> s.worker == Released && Apply(s, a).worker == Done
    ensures s.worker in {Unmapped, Released, Done} && a !in {WorkerRelease, FreeClient} ==>
              Apply(s, a).worker == s.worker
    ensures a !in {Unmap, WorkerRelease, FreeClient} && Mapped(s) ==> Mapped(Apply(s, a))
  {
  }

  lemma {:induction false} PrefixRuns(before: seq<Action>, between: seq<Action>)
    requires Exec(before + between).Some?
    ensures Exec(before).Some?
  {
    if between == [] {
      assert before + between == before;
    } else {
      var last := |between| - 1;
      assert (before + between)[..|before| + last] == before + between[..last];
      PrefixRuns(before, between[..last]);
    }
  }

  /** Whatever cancel_client does with a client that was picked from the map
      meets the client exactly when the worker has not freed it since, and the
      context exactly when, besides, the worker has made it and has not given it up
      since while no handler holds it. */
  lemma PickedMeetsPresentIff(before: seq<Action>, between: seq<Action>)
    requires Exec(before + [Pick] + between).Some?
    ensures var s := Exec(before + [Pick] + between).value;
            && (ClientPresent(s) <==> FreeClient !in between)
            && (Present(s) <==>
                && Setup in before + between && FreeClient !in between
                && (WorkerRelease in between ==> s.running + s.releasing > 0))
  {
    var all := before + [Pick] + between;
    PrefixRuns(before + [Pick], between);
    PrefixRuns(before, [Pick]);
    ExecSteps(before, Pick);
    History(before);
    History(all);
    RunKeeps(all);
  }

  /** A worker that is leaving, and has no handler left, takes everything with
      it. */
  lemma Vanishes(run: seq<Action>, s: State) returns (run': seq<Action>, s': State)
    requires Exec(run) == Some(s) && s.worker == Leaving && s.count == 1 && s.freed == 0
    ensures run' == run + [Unmap, WorkerRelease, FreeClient] && Exec(run') == Some(s')
    ensures s' == s.(worker := Done, count := 0, freed := 1)
  {
    hide Exec;
    run', s' := Next(run, s, Unmap);
    run', s' := Next(run', s', WorkerRelease);
    run', s' := Next(run', s', FreeClient);
  }

  /** Nothing stops the worker from freeing both between the two: a pipe that
      breaks while the server is destroyed ends with a signal to a freed
      condition variable. */
  lemma StraySignal()
    ensures var s := Exec([Setup, Leave, BeginClose, Pick, Unmap, WorkerRelease, FreeClient, CancelSignal]);
            s.Some? && s.value.freed == 1 && s.value.strays == 1
  {
    hide Exec;
    Start();
    var r, s := Next([], INIT, Setup);
    r, s := Next(r, s, Leave);
    r, s := Next(r, s, BeginClose);
    r, s := Next(r, s, Pick);
    r, s := Vanishes(r, s);
    r, s := Next(r, s, CancelSignal);
    assert r == [Setup, Leave, BeginClose, Pick, Unmap, WorkerRelease, FreeClient, CancelSignal];
  }

  /** The idle worker's read is being interrupted. */
  const INTERRUPTED: State := State(Idle, Interrupted, true, 1, 3, false, 0, 0, 0, 0, 0, 0, 0, 0, 0)

  lemma IdleInterrupted() returns (r: seq<Action>)
    ensures r == [Setup, LookAtClosing, BeginClose, Pick, CancelSignal, CancelIo] && Exec(r) == Some(INTERRUPTED)
  {
    hide Exec;
    Start();
    var s;
    r, s := Next([], INIT, Setup);
    r, s := Next(r, s, LookAtClosing);
    r, s := Next(r, s, BeginClose);
    r, s := Next(r, s, Pick);
    r, s := Next(r, s, CancelSignal);
    r, s := Next(r, s, CancelIo);
  }

  /** Nor does the signal, nor the lock: an idle worker whose read the shutdown
      interrupts may have freed both before they are unlocked and joined. */
  lemma IdleClientIsGone()
    ensures var s := Exec([Setup, LookAtClosing, BeginClose, Pick, CancelSignal, CancelIo,
                           Leave, Unmap, WorkerRelease, FreeClient, Unlock, Join]);
            s.Some? && s.value.freed == 1 && s.value.strays == 2
  {
    hide Exec;
    var r := IdleInterrupted();
    var s;
    r, s := Next(r, INTERRUPTED, Leave);
    r, s := Vanishes(r, s);
    r, s := Next(r, s, Unlock);
    r, s := Next(r, s, Join);
    assert r == [Setup, LookAtClosing, BeginClose, Pick, CancelSignal, CancelIo,
                 Leave, Unmap, WorkerRelease, FreeClient, Unlock, Join];
  }

  /** The steps the worker has left if it never waits again. */
  function StepsLeft(w: Worker): nat {
    match w
    case Received => 7
    case Waiting => 6
    case Starting => 5
    case Leaving => 3
    case Unmapped => 2
    case Released => 1
    case Done => 0
    case _ => 4
  }

  /** What cancel_client does after its signal. */
  predicate Cancels(a: Action) {
    a.CancelIo? || a.Unlock? || a.Join?
  }

  /** The worker needs the lock to go on. */
  predicate NeedsLock(s: State) {
    s.worker in {Received, Waiting}
  }

  /** A worker that does not wait for the lock can come to its end before
      cancel_client takes another step. */
  lemma {:induction false} Ends(run: seq<Action>, s: State) returns (rest: seq<Action>)
    requires Exec(run) == Some(s) && Inv(s) && (NeedsLock(s) ==> !s.locked)
    ensures Exec(run + rest).Some? && Exec(run + rest).value.worker == Done
    ensures forall a :: a in rest ==> !Cancels(a)
    decreases StepsLeft(s.worker), s.signal == 0
  {
    hide Exec, Inv;
    if s.worker == Done {
      assert run + [] == run;
      return [];
    }
    var a := Onwards(s);
    StepKeeps(s, a);
    var run', s' := Next(run, s, a);
    var more := Ends(run', s');
    assert run' + more == run + ([a] + more);
    rest := [a] + more;
  }

  /** A step that brings the worker nearer to its end. */
  lemma Onwards(s: State) returns (a: Action)
    requires Inv(s) && s.worker != Done && (NeedsLock(s) ==> !s.locked)
    ensures Enabled(s, a) && !Cancels(a)
    ensures var s' := Apply(s, a);
            && (NeedsLock(s') ==> !s'.locked)
            && (|| StepsLeft(s'.worker) < StepsLeft(s.worker)
                || (s'.worker == s.worker == Waiting && s.signal == 0 && s'.signal != 0))
  {
    a := match s.worker
      case Starting => Setup
      case Received => Call
      case Waiting => if s.signal == 0 then Finish(false) else Wake
      case Leaving => Unmap
      case Unmapped => WorkerRelease
      case Released => FreeClient
      case _ => Leave;
  }

  /** cancel_client is sure to find client and context when it unlocks exactly when
      the worker needed the lock to go on when it was signalled: it was about to
      call its handler or in its wait. */
  lemma UnlockSafeIff(before: seq<Action>)
    requires Exec(before + [CancelSignal]).Some?
    ensures Exec(before).Some?
    ensures NeedsLock(Exec(before).value) <==>
            forall between :: Exec(before + [CancelSignal] + between).Some? && Unlock !in between ==>
                                Present(Exec(before + [CancelSignal] + between).value)
  {
    hide Exec;
    ExecSteps(before, CancelSignal);
    RunKeeps(before);
    RunKeeps(before + [CancelSignal]);
    if NeedsLock(Exec(before).value) {
      forall between | Exec(before + [CancelSignal] + between).Some? && Unlock !in between
        ensures Present(Exec(before + [CancelSignal] + between).value)
      {
        WaitsForUnlock(before, between);
      }
    } else {
      var between := Ends(before + [CancelSignal], Exec(before + [CancelSignal]).value);
      assert Unlock !in between && !Present(Exec(before + [CancelSignal] + between).value);
    }
  }

  /** The worker needs the lock, and cancel_client has it. */
  ghost predicate Blocked(s: State) {
    NeedsLock(s) && s.locked && s.canceller in {Signalled, Interrupted} && s.freed == 0 && s.count > 0
  }

  lemma StaysBlocked(s: State, a: Action)
    requires Inv(s) && Blocked(s) && Enabled(s, a) && a != Unlock
    ensures Blocked(Apply(s, a))
  {
  }

  lemma {:induction false} WaitsForUnlock(before: seq<Action>, between: seq<Action>)
    requires Exec(before).Some? && NeedsLock(Exec(before).value)
    requires Exec(before + [CancelSignal] + between).Some? && Unlock !in between
    ensures Blocked(Exec(before + [CancelSignal] + between).value)
  {
    hide Exec, Inv, Apply, Enabled, Blocked;
    if between == [] {
      assert before + [CancelSignal] + between == before + [CancelSignal];
      ExecSteps(before, CancelSignal);
      RunKeeps(before);
      SignalBlocks(Exec(before).value);
    } else {
      var last := |between| - 1;
      var rest := between[..last];
      assert before + [CancelSignal] + between == before + [CancelSignal] + rest + [between[last]];
      ExecSteps(before + [CancelSignal] + rest, between[last]);
      WaitsForUnlock(before, rest);
      RunKeeps(before + [CancelSignal] + rest);
      StaysBlocked(Exec(before + [CancelSignal] + rest).value, between[last]);
    }
  }

  lemma SignalBlocks(s: State)
    requires Inv(s) && NeedsLock(s) && Enabled(s, CancelSignal)
    ensures Blocked(Apply(s, CancelSignal))
  {
  }

  /** The join is never sure to find its client: however things stand after the
      unlocking, the worker can still free it first. */
  lemma JoinNeverSafe(run: seq<Action>) returns (rest: seq<Action>)
    requires Exec(run).Some? && Exec(run).value.canceller == Unlocked
    ensures Join !in rest && Exec(run + rest).Some? && !ClientPresent(Exec(run + rest).value)
  {
    hide Exec;
    RunKeeps(run);
    rest := Ends(run, Exec(run).value);
  }

  /** Nothing that overwrites a signal. */
  ghost predicate Undisturbed(between: seq<Action>) {
    forall a :: a in between ==> !a.Call? && !a.Finish?
  }

  /** How the signal stands some steps after a cancel. */
  ghost predicate Stands(s: State, undisturbed: bool) {
    && s.canceller in {Signalled, Interrupted, Unlocked, Joining}
    && if undisturbed then s.worker == Waiting ==> s.signal == 3 else s.signal != 3
  }

  lemma StandsNext(s: State, undisturbed: bool, a: Action)
    requires Stands(s, undisturbed) && Enabled(s, a) && a != Wake
    ensures Stands(Apply(s, a), undisturbed && !a.Call? && !a.Finish?)
  {
    hide Present;
  }

  lemma {:induction false} SignalStands(before: seq<Action>, between: seq<Action>)
    requires Exec(before + [CancelSignal] + between).Some? && Wake !in between
    ensures Stands(Exec(before + [CancelSignal] + between).value, Undisturbed(between))
  {
    if between == [] {
      assert before + [CancelSignal] + between == before + [CancelSignal];
      ExecSteps(before, CancelSignal);
      RunKeeps(before);
    } else {
      hide Exec, Apply, Enabled, Stands;
      var last := |between| - 1;
      var rest := between[..last];
      assert between == rest + [between[last]];
      assert before + [CancelSignal] + between == before + [CancelSignal] + rest + [between[last]];
      ExecSteps(before + [CancelSignal] + rest, between[last]);
      SignalStands(before, rest);
      StandsNext(Exec(before + [CancelSignal] + rest).value, Undisturbed(rest), between[last]);
      assert Undisturbed(between) <==> Undisturbed(rest) && !between[last].Call? && !between[last].Finish?;
    }
  }

  /** A cancel makes the next wait end in leaving exactly when neither a handler
      call nor a finish comes between: a call resets the signal, a finish
      overwrites it. */
  lemma CancelHeededIff(before: seq<Action>, between: seq<Action>)
    requires Exec(before + [CancelSignal] + between + [Wake]).Some? && Wake !in between
    ensures Exec(before + [CancelSignal] + between + [Wake]).value.worker == Leaving <==> Undisturbed(between)
  {
    ExecSteps(before + [CancelSignal] + between, Wake);
    SignalStands(before, between);
  }

  /** A whole cancel of a client that is there. */
  lemma Cancelled(run: seq<Action>, s: State) returns (run': seq<Action>, s': State)
    requires Exec(run) == Some(s) && s.canceller == Serving && !s.locked && Present(s) && Mapped(s)
    ensures run' == run + [BeginClose, Pick, CancelSignal, CancelIo, Unlock] && Exec(run') == Some(s')
    ensures s' == s.(canceller := Unlocked, signal := 3)
  {
    hide Exec;
    run', s' := Next(run, s, BeginClose);
    run', s' := Next(run', s', Pick);
    run', s' := Next(run', s', CancelSignal);
    run', s' := Next(run', s', CancelIo);
    run', s' := Next(run', s', Unlock);
  }

  /** Both can happen: here the worker waits on for its handler ... */
  lemma CancelLostToCall()
    ensures var s := Exec([Setup, LookAtClosing, Receive(1), ReceivePayload,
                           BeginClose, Pick, CancelSignal, CancelIo, Unlock, Call]);
            s.Some? && s.value.worker == Waiting && !Enabled(s.value, Wake)
  {
    hide Exec;
    Start();
    var r, s := Next([], INIT, Setup);
    r, s := Next(r, s, LookAtClosing);
    r, s := Next(r, s, Receive(1));
    r, s := Next(r, s, ReceivePayload);
    r, s := Cancelled(r, s);
    r, s := Next(r, s, Call);
    assert r == [Setup, LookAtClosing, Receive(1), ReceivePayload,
                 BeginClose, Pick, CancelSignal, CancelIo, Unlock, Call];
  }

  /** ... and here it goes on to reply. */
  lemma CancelLostToFinish()
    ensures var r := [Setup, LookAtClosing, Receive(1), ReceivePayload, Call,
                      BeginClose, Pick, CancelSignal, CancelIo, Unlock, Finish(false), Wake];
            Exec(r).Some? && Exec(r).value.worker == Replying
  {
    hide Exec;
    var r := HandlerRuns();
    var s;
    r, s := Cancelled(r, HANDLING);
    r, s := Next(r, s, Finish(false));
    r, s := Next(r, s, Wake);
    assert r == [Setup, LookAtClosing, Receive(1), ReceivePayload, Call,
                 BeginClose, Pick, CancelSignal, CancelIo, Unlock, Finish(false), Wake];
  }

  /** The handler of the first request is running. */
  const HANDLING: State := State(Waiting, Serving, false, 2, 0, false, 1, 1, 1, 0, 1, 0, 0, 0, 0)

  lemma HandlerRuns() returns (r: seq<Action>)
    ensures r == [Setup, LookAtClosing, Receive(1), ReceivePayload, Call] && Exec(r) == Some(HANDLING)
  {
    hide Exec;
    Start();
    var s;
    r, s := Next([], INIT, Setup);
    r, s := Next(r, s, LookAtClosing);
    r, s := Next(r, s, Receive(1));
    r, s := Next(r, s, ReceivePayload);
    r, s := Next(r, s, Call);
    assert r == [Setup, LookAtClosing, Receive(1), ReceivePayload, Call];
  }

  /** At most one handler call since closing was set after calls of them. */
  ghost predicate OneMore(s: State, calls: nat) {
    && s.canceller != Serving && calls <= s.calls <= calls + 1
    && (s.calls == calls + 1 ==> s.worker !in {Starting, Idle, Reading, Received})
  }

  lemma OneMoreNext(s: State, calls: nat, a: Action)
    requires OneMore(s, calls) && Enabled(s, a)
    ensures OneMore(Apply(s, a), calls)
  {
    hide Present;
  }

  /** A lost cancel does not keep the worker serving: once closing is set at most
      one more handler is called, whatever becomes of the signal. */
  lemma {:induction false} OneCallAfterClosing(before: seq<Action>, after: seq<Action>)
    requires Exec(before + [BeginClose] + after).Some?
    ensures Exec(before).Some? && OneMore(Exec(before + [BeginClose] + after).value, Exec(before).value.calls)
  {
    if after == [] {
      assert before + [BeginClose] + after == before + [BeginClose];
      ExecSteps(before, BeginClose);
    } else {
      hide Exec, Apply, Enabled, OneMore;
      var last := |after| - 1;
      assert after == after[..last] + [after[last]];
      assert before + [BeginClose] + after == before + [BeginClose] + after[..last] + [after[last]];
      ExecSteps(before + [BeginClose] + after[..last], after[last]);
      OneCallAfterClosing(before, after[..last]);
      OneMoreNext(Exec(before + [BeginClose] + after[..last]).value, Exec(before).value.calls, after[last]);
    }
  }
}
