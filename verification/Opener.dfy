/** Opening further decoders in the background (create_sub_stream, find_stream
    and the destructors of audio.c and video.c, which are alike). Every step is
    what one thread does between two points where the other may get in. */
module Opener {
  import opened Wrappers

  datatype Status = NoThread | Running | Closing

  /** Where the opener thread is. */
  datatype Opener =
    | Absent
    | Checking          // about to lock and look at cap, len and status
    | Opening(i: nat)   // has cleared slot i and calls ffmpeg_open on it
    | Opened(i: nat)    // about to lock and count slot i
    | Ended

  /** Where the owner of the reader is. */
  datatype Owner =
    | Using(seen: nat)      // the slots below seen may be read from
    | Joining               // destroy, in thrd_join
    | ClosingFrom(i: nat)   // destroy, about to close slot i
    | Destroyed

  /** How often a slot was opened and closed. */
  datatype Slot = Slot(opens: nat, closes: nat)

  datatype State = State(
    slots: seq<Slot>, len: nat, status: Status, opener: Opener, owner: Owner, threads: nat)

  /** After create: the first slot is open. */
  function Init(cap: nat): State
    requires cap > 0
  {
    State(seq(cap, i => if i == 0 then Slot(1, 0) else Slot(0, 0)), 1, NoThread, Absent, Using(0), 0)
  }

  datatype Action =
    | FindStream(starts: bool)  // starts: thrd_create would succeed
    | Check
    | OpenResult(ok: bool)
    | Publish
    | Destroy
    | Join
    | Close

  predicate Enabled(s: State, a: Action) {
    match a
    case FindStream(_) => s.owner.Using?
    case Check => s.opener.Checking?
    case OpenResult(_) => s.opener.Opening? && s.opener.i < |s.slots|
    case Publish => s.opener.Opened?
    case Destroy => s.owner.Using?
    case Join => s.owner.Joining? && s.opener.Ended?
    case Close => s.owner.ClosingFrom? && s.owner.i <= s.len <= |s.slots|
  }

  function Apply(s: State, a: Action): State
    requires Enabled(s, a)
  {
    match a
    case FindStream(starts) =>
      var s' := s.(owner := Using(s.len));
      if s.status == NoThread && |s.slots| > 1 && starts
      then s'.(status := Running, opener := Checking, threads := s.threads + 1)
      else s'
    case Check =>
      if s.status == Closing || |s.slots| == s.len then s.(opener := Ended) else s.(opener := Opening(s.len))
    case OpenResult(ok) =>
      var i := s.opener.i;
      if ok then s.(opener := Opened(i), slots := s.slots[i := s.slots[i].(opens := s.slots[i].opens + 1)])
      else s.(opener := Ended)
    case Publish => s.(opener := Checking, len := s.len + 1)
    case Destroy =>
      if s.status == Running then s.(status := Closing, owner := Joining) else s.(owner := ClosingFrom(0))
    case Join => s.(owner := ClosingFrom(0))
    case Close =>
      var i := s.owner.i;
      if i == s.len then s.(owner := Destroyed)
      else s.(owner := ClosingFrom(i + 1), slots := s.slots[i := s.slots[i].(closes := s.slots[i].closes + 1)])
  }

  function Exec(cap: nat, actions: seq<Action>): Option<State>
    requires cap > 0
  {
    if actions == [] then Some(Init(cap))
    else
      var last := |actions| - 1;
      match Exec(cap, actions[..last])
      case None => None
      case Some(s) => if Enabled(s, actions[last]) then Some(Apply(s, actions[last])) else None
  }

  /** Slots the destructor has closed so far. */
  function ClosedBelow(s: State): nat {
    match s.owner
    case ClosingFrom(i) => i
    case Destroyed => s.len
    case _ => 0
  }

  /** Slots that are open or were. */
  function OpenBelow(s: State): nat {
    if s.opener.Opened? then s.len + 1 else s.len
  }

  ghost predicate Inv(s: State, cap: nat) {
    && |s.slots| == cap && 1 <= s.len && ClosedBelow(s) <= s.len && OpenBelow(s) <= cap
    && (forall i :: 0 <= i < cap ==>
          s.slots[i] == Slot(if i < OpenBelow(s) then 1 else 0, if i < ClosedBelow(s) then 1 else 0))
    && (s.opener.Opening? || s.opener.Opened? ==> s.opener.i == s.len < cap)
    && s.threads == (if s.opener.Absent? then 0 else 1)
    && (s.status == NoThread <==> s.opener.Absent?)
    && (s.owner.Using? ==> s.owner.seen <= s.len && s.status != Closing)
    && (s.owner.Joining? ==> s.status == Closing)
    && (s.owner.ClosingFrom? || s.owner.Destroyed? ==> s.opener.Absent? || s.opener.Ended?)
  }

  lemma StepKeeps(s: State, a: Action, cap: nat)
    requires Inv(s, cap) && Enabled(s, a)
    ensures Inv(Apply(s, a), cap)
  {
  }

  lemma {:induction false} RunKeeps(cap: nat, actions: seq<Action>)
    requires cap > 0 && Exec(cap, actions).Some?
    ensures Inv(Exec(cap, actions).value, cap)
    decreases |actions|
  {
    if actions != [] {
      var last := |actions| - 1;
      RunKeeps(cap, actions[..last]);
      StepKeeps(Exec(cap, actions[..last]).value, actions[last], cap);
    }
  }

  /** Under every interleaving: at most one opener thread is ever started, and
      every slot the owner may read from is opened once and not closed. */
  lemma ReadersSeeOpenSlots(cap: nat, actions: seq<Action>)
    requires cap > 0 && Exec(cap, actions).Some?
    ensures var s := Exec(cap, actions).value;
            && s.threads <= 1
            && (s.owner.Using? ==> forall i :: 0 <= i < s.owner.seen ==> i < |s.slots| && s.slots[i] == Slot(1, 0))
  {
    RunKeeps(cap, actions);
  }

  /** The opener thread writes to no slot below len, so never to one the owner
      may read from. */
  lemma OpenerStaysAboveLen(cap: nat, actions: seq<Action>)
    requires cap > 0 && Exec(cap, actions).Some?
    ensures var s := Exec(cap, actions).value;
            && (s.opener.Opening? || s.opener.Opened? ==> s.opener.i >= s.len)
            && (s.opener.Opening? && s.owner.Using? ==> s.opener.i >= s.owner.seen)
  {
    RunKeeps(cap, actions);
  }

  /** Destroying closes every slot that was opened exactly once. */
  lemma ClosedOnce(cap: nat, actions: seq<Action>)
    requires cap > 0 && Exec(cap, actions).Some? && Exec(cap, actions).value.owner == Destroyed
    ensures forall slot :: slot in Exec(cap, actions).value.slots ==> slot.closes == slot.opens <= 1
  {
    RunKeeps(cap, actions);
  }

  /** Unless opening fails or the owner destroys it first, the opener ends only
      when every slot is open and published. */
  lemma {:induction false} EndedWhenFull(cap: nat, actions: seq<Action>)
    requires cap > 0 && Exec(cap, actions).Some? && OpenResult(false) !in actions
    ensures var s := Exec(cap, actions).value;
            s.opener.Ended? && s.status != Closing ==>
              s.len == cap && forall slot :: slot in s.slots ==> slot.opens == 1
    decreases |actions|
  {
    RunKeeps(cap, actions);
    if actions != [] {
      var last := |actions| - 1;
      RunKeeps(cap, actions[..last]);
      EndedWhenFull(cap, actions[..last]);
    }
  }

  /** At each find_stream the owner gets to see all slots published by then, and
      from the first one on there is an opener if there is a second slot. */
  lemma SeesPublished(cap: nat, actions: seq<Action>, starts: bool)
    requires cap > 0 && Exec(cap, actions + [FindStream(starts)]).Some?
    ensures Exec(cap, actions).Some?
    ensures var s, s' := Exec(cap, actions).value, Exec(cap, actions + [FindStream(starts)]).value;
            && s'.owner == Using(s.len) && s'.len == s.len && s'.slots == s.slots
            && (starts && cap > 1 ==> !s'.opener.Absent?)
  {
    assert (actions + [FindStream(starts)])[..|actions|] == actions;
    RunKeeps(cap, actions);
  }

  predicate OfOpener(a: Action) {
    a.Check? || a.OpenResult? || a.Publish?
  }

  /** Steps the opener has left once it is told to close. */
  function StepsLeft(opener: Opener): nat {
    match opener
    case Opening(_) => 3
    case Opened(_) => 2
    case Checking => 1
    case _ => 0
  }

  /** Destroying does not wait for ever: until the opener has ended it can move,
      and whatever its next step is, it is one step closer to the end. */
  lemma JoinIsReached(cap: nat, actions: seq<Action>)
    requires cap > 0 && Exec(cap, actions).Some? && Exec(cap, actions).value.owner.Joining?
    ensures var s := Exec(cap, actions).value;
            && (Enabled(s, Join) || exists a :: OfOpener(a) && Enabled(s, a))
            && forall a :: OfOpener(a) && Enabled(s, a) ==>
                 StepsLeft(Apply(s, a).opener) < StepsLeft(s.opener) && Apply(s, a).owner.Joining?
  {
    RunKeeps(cap, actions);
    var s := Exec(cap, actions).value;
    if s.opener.Opening? { assert Enabled(s, OpenResult(true)); }
    if s.opener.Opened? { assert Enabled(s, Publish); }
    if s.opener.Checking? { assert Enabled(s, Check); }
  }
}
