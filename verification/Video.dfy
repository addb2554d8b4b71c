/** Random-access video over sequential decoders (video.c). */
module Video {
  import opened Wrappers
  import opened Seeking
  import opened Timestamps
  import opened Rescale

  /** A constant-rate video stream of count frames, num / den ticks apart. What
      read delivers is the number of the decoded frame. */
  datatype Source = Source(
    num: int,
    den: int,
    start: int,
    second: nat,               // duration1s: whole ticks in one second
    count: nat,
    key: nat -> bool,          // is frame k a key frame
    index: int -> Option<int>, // timestamp of the index entry at or before
    land: int -> nat,          // the frame a seek to a timestamp lands on
    floor: nat)                // no seek lands before this frame
  {
    /** Frames last at least one tick; a seek lands on one of them, or, when it
        aims past the last one, possibly on the end of the stream. */
    ghost predicate Valid() {
      && num >= den > 0 && second >= 1 && floor < count && start > AV_NOPTS_VALUE
      && (forall t :: floor <= land(t) <= count)
      && land(Stamp(count - 1)) < count
      && Monotone(land) && Fits(count - 1)
    }

    /** The timestamp of frame n is an int64_t, and so is its distance from the
        start. */
    ghost predicate Fits(n: nat)
      requires num > 0 && den > 0
    {
      Stamp(n) <= INT64_MAX && Stamp(n) - start < INT64_MAX
    }

    /** frame_to_pts, which is also how the frames are stamped. */
    function Stamp(k: nat): int
      requires num > 0 && den > 0
    {
      ToPts(k, num, den, start)
    }

    /** The loop that seeks back until it lands on a frame not after target. */
    function Backwards(target: int): Retry
      requires num > 0 && den > 0
    {
      Retry(land, (k: nat) => Stamp(k), (k: nat) => Stamp(k) <= target, start, target, second)
    }

    /** A seek for target comes to frame k before it skips forward, or to the end
        of the stream, where k is count. */
    ghost predicate Reaches(target: int, k: nat)
      requires num > 0 && den > 0
    {
      if land(target) == count then k == count else Backwards(target).EndsOn(k)
    }

    /** skip_frames for a difference of timestamps. */
    function Skip(ticks: int): int
      requires num > 0 && den > 0
    {
      SkipFrames(0, ticks, num, den)
    }
  }

  type Clip = s: Source | s.Valid()
    witness Source(1, 1, 0, 1, 1, k => true, t => None, t => 0, 0)

  /** Stamps order frames, and the skip count between them is large enough. */
  lemma StampsOrder(src: Clip, j: nat, k: nat)
    ensures src.Stamp(j) <= src.Stamp(k) <==> j <= k
    ensures src.Stamp(j) == src.Stamp(k) <==> j == k
    ensures j <= k ==> src.Skip(src.Stamp(k) - src.Stamp(j)) >= k - j
  {
    if j <= k {
      SkipReaches(j, k, src.num, src.den, src.start);
    } else {
      SkipReaches(k, j, src.num, src.den, src.start);
    }
  }

  lemma StampFromStart(src: Clip, k: nat)
    ensures src.Stamp(k) >= src.start
  {
    SkipReaches(0, k, src.num, src.den, src.start);
    Exact(0, src.den, Near(0 * src.num, src.den));
  }

  /** The key frame recorded last once frames from first up to end have gone by. */
  function Group(src: Source, gop: Option<int>, first: nat, end: nat): Option<int>
    requires src.num > 0 && src.den > 0
    decreases end
  {
    if end <= first then gop
    else if src.key(end - 1) then Some(src.Stamp(end - 1))
    else Group(src, gop, first, end - 1)
  }

  /** Frame k is the last key frame of those. */
  ghost predicate LastKey(src: Source, first: nat, end: nat, k: nat) {
    first <= k < end && src.key(k) && forall i: nat :: k < i < end ==> !src.key(i)
  }

  /** The group is that of the last key frame that went by, or, if there was none,
      what was recorded before. */
  lemma {:induction false} GroupIsLastKey(src: Clip, gop: Option<int>, first: nat, end: nat)
    ensures forall k: nat :: LastKey(src, first, end, k) ==> Group(src, gop, first, end) == Some(src.Stamp(k))
    ensures (forall k: nat :: first <= k < end ==> !src.key(k)) ==> Group(src, gop, first, end) == gop
    ensures (forall k: nat :: first <= k < end ==> !src.key(k)) || exists k: nat :: LastKey(src, first, end, k)
    decreases end
  {
    hide Source.Stamp;
    if end > first {
      GroupIsLastKey(src, gop, first, end - 1);
      if src.key(end - 1) {
        assert LastKey(src, first, end, end - 1);
      } else {
        forall k: nat ensures LastKey(src, first, end, k) <==> LastKey(src, first, end - 1, k) {}
        if forall k: nat :: first <= k < end - 1 ==> !src.key(k) {
          assert forall k: nat :: first <= k < end ==> !src.key(k);
        } else {
          var k: nat :| LastKey(src, first, end - 1, k);
          assert LastKey(src, first, end, k);
        }
      }
    }
  }

  lemma {:induction false} GroupJoins(src: Clip, gop: Option<int>, first: nat, end: nat)
    requires first < end
    ensures Group(src, Group(src, gop, first, first + 1), first + 1, end) == Group(src, gop, first, end)
    decreases end
  {
    if end > first + 1 && !src.key(end - 1) { GroupJoins(src, gop, first, end - 1); }
  }

  /** A seek for a frame of the stream lands on one. */
  lemma InRangeLands(src: Clip, n: nat)
    ensures n < src.count ==> src.land(src.Stamp(n)) < src.count
  {
    StampsOrder(src, n, src.count - 1);
  }

  /** When the first seek lands early enough, that is where it ends. */
  lemma ReachesAtOnce(src: Clip, n: nat, k: nat)
    requires src.Reaches(src.Stamp(n), k) && src.land(src.Stamp(n)) <= n
    ensures k == src.land(src.Stamp(n))
  {
    var target := src.Stamp(n);
    StampsOrder(src, src.land(target), n);
    var loop := src.Backwards(target);
    AttemptAfter(loop, 0);
    if src.land(target) != src.count {
      assert loop.EndsAt(0, src.land(target));
      EndsOnce(loop, k, src.land(target));
    }
  }

  /** What the loop is allowed from no frame at all: nothing for a target that is
      not negative, because the difference wraps. */
  lemma SkipFromNowhere(src: Clip, target: int)
    requires AV_NOPTS_VALUE < target <= INT64_MAX
    ensures src.Skip(Minus(target, AV_NOPTS_VALUE)) > 0 <==> target < 0
  {
    var ticks := Minus(target, AV_NOPTS_VALUE);
    var skip := Up(ticks * src.den, src.num);
    if target < 0 {
      Scale(1, ticks, src.den);
      SkipAtLeast(ticks, 0, src.num, src.den, skip);
    } else {
      Scale(ticks, -1, src.den);
      if skip > 0 { Scale(0, skip - 1, src.num); }
    }
  }

  /** Differences between timestamps of frames do not wrap. */
  lemma FramesApart(src: Clip, j: nat, n: nat)
    requires j < src.count && src.Fits(n)
    ensures Minus(src.Stamp(n), src.Stamp(j)) == src.Stamp(n) - src.Stamp(j)
    ensures -INT64_MAX < src.Stamp(n) - src.Stamp(j) < INT64_MAX
  {
    StampFromStart(src, j);
    StampFromStart(src, n);
    StampsOrder(src, j, src.count - 1);
  }

  /** A group is recorded when there was one, or a key frame went by. */
  lemma {:induction false} GroupRecorded(src: Clip, gop: Option<int>, first: nat, end: nat)
    ensures Group(src, gop, first, end).Some? <==> gop.Some? || exists k: nat :: first <= k < end && src.key(k)
    decreases end
  {
    if end > first && !src.key(end - 1) { GroupRecorded(src, gop, first, end - 1); }
  }

  /** What video_read leaves in the caller's buffer: the picture of a frame, a
      blank one, or, with no frame to scale, what was there before. */
  datatype Picture = Frame(number: nat) | Blank | Untouched

  /** struct stream. */
  class Decoder {
    var cur: Option<nat>  // the frame decoded last
    var next: nat         // the frame the next grab decodes
    var gop: Option<int>  // current_gop_intra_pts
    var ts: Timespec
    var eofReached: bool

    constructor ()
      ensures cur == None && gop == None && next == 0 && !eofReached
    {
      cur, next, gop, ts, eofReached := None, 0, None, Timespec(0, 0), false;
    }

    /** Grabbing continues with the frame after the current one. */
    ghost predicate Sequential(src: Clip)
      reads `cur, `next
    {
      && next <= src.count
      && (cur.Some? ==> src.floor <= cur.value < src.count && next == cur.value + 1)
    }

    /** A decoder that met the end in a seek: it has no frame, but keeps its
        group of pictures. */
    ghost predicate Stale(src: Clip)
      reads `cur, `gop
    {
      cur.None? && gop.Some?
    }

    ghost predicate Valid(src: Clip)
      reads `cur, `next, `gop
    {
      Sequential(src) && (Stale(src) ==> next == src.count)
    }

    /** frame->pts, which av_frame_unref resets. */
    function Pts(src: Clip): int
      reads `cur
    {
      if cur.Some? then src.Stamp(cur.value) else AV_NOPTS_VALUE
    }
  }

  /** struct video. */
  class VideoReader {
    const src: Clip
    var streams: seq<Decoder>
    var len: nat               // how many of them are published
    var validFirst: Option<int>  // valid_first_pts

    /** video_create: one decoder is open, the others are still to be. */
    constructor (src: Clip, cap: nat)
      requires cap > 0
      ensures Ready() && this.src == src && len == 1 && |streams| == cap && validFirst == None
      ensures fresh(streams) && forall i :: 0 <= i < cap ==> streams[i].cur == None && streams[i].gop == None
    {
      this.src, len, validFirst := src, 1, None;
      streams := [];
      new;
      for i := 0 to cap
        invariant |streams| == i && fresh(streams) && len == 1 && validFirst == None
        invariant forall j :: 0 <= j < i ==> streams[j].Valid(src) && streams[j].cur == None && streams[j].gop == None
        invariant forall j, k :: 0 <= j < k < i ==> streams[j] != streams[k]
      {
        var d := new Decoder();
        streams := streams + [d];
      }
    }

    ghost predicate Ready()
      reads this, streams
    {
      && 0 < len <= |streams|
      && (forall i :: 0 <= i < |streams| ==> streams[i].Valid(src))
      && (forall i, j :: 0 <= i < j < |streams| ==> streams[i] != streams[j])
    }

    /** Frame k is where some seek below the start time lands. */
    ghost predicate FirstFrame(k: nat) {
      exists t :: t < src.start && k == src.land(t)
    }

    /** ffmpeg_seek and ffmpeg_grab. */
    method SeekAndGrab(d: Decoder, pts: int) returns (eof: bool)
      requires d.Sequential(src)
      modifies d`cur, d`next
      ensures d.Sequential(src)
      ensures eof <==> src.land(pts) == src.count
      ensures d.cur == if eof then None else Some(src.land(pts))
      ensures eof ==> d.next == src.count
    {
      d.next := src.land(pts);
      eof := Grab(d);
    }

    /** ffmpeg_grab. */
    method Grab(d: Decoder) returns (eof: bool)
      requires src.floor <= d.next <= src.count
      modifies d`cur, d`next
      ensures d.Sequential(src)
      ensures eof <==> old(d.next) == src.count
      ensures d.cur == if eof then None else Some(old(d.next))
      ensures eof ==> d.next == src.count
    {
      eof := d.next == src.count;
      if eof {
        d.cur := None;
      } else {
        d.cur, d.next := Some(d.next), d.next + 1;
      }
    }

    /** The first loop of video.c seek: it ends on the frame that Seeking says, or
        at once when the first seek lands on the end of the stream. */
    method Rewind(d: Decoder, target: int)
      requires d.Sequential(src)
      modifies this`validFirst, d`cur, d`next, d`eofReached
      ensures d.Sequential(src) && (d.eofReached <==> d.cur == None) && (d.eofReached ==> d.next == src.count)
      ensures d.eofReached <==> src.land(target) == src.count
      ensures src.Reaches(target, if d.eofReached then src.count else d.cur.value)
      ensures d.cur.Some? && src.Stamp(d.cur.value) > target ==> FirstFrame(d.cur.value)
      ensures validFirst == if d.cur.Some? && src.Stamp(d.cur.value) > target then Some(src.Stamp(d.cur.value))
                            else old(validFirst)
    {
      hide ToPts, Source.Stamp, Retry.Attempt, Retry.Stops, Retry.EndsOn;
      var seekTarget := target;
      var prevpts: Option<int> := None;
      ghost var prev: nat := src.count + 1;
      ghost var loop, i := src.Backwards(target), 0;
      AttemptAfter(loop, 0);
      while true
        invariant seekTarget == loop.Attempt(i) && (i == 0 <==> prevpts.None?) && validFirst == old(validFirst)
        invariant i > 0 ==> loop.Attempt(i - 1) == seekTarget + src.second
        invariant forall j: nat :: j < i ==> !loop.Stops(j)
        invariant d.Sequential(src) && seekTarget <= target
        invariant prevpts.Some? ==>
                    prevpts.value == src.Stamp(prev) && prev == src.land(seekTarget + src.second)
        invariant prevpts.None? ==> prev == src.count + 1 && seekTarget == target
        invariant prevpts.Some? ==> src.land(target) < src.count
        decreases if seekTarget >= src.start then seekTarget - src.start + 1 else 0, prev
      {
        var eof := SeekAndGrab(d, seekTarget);
        if eof {
          d.eofReached := true;
          return;
        }
        d.eofReached := false;
        assert src.land(seekTarget) <= src.land(seekTarget + src.second);
        var pts := src.Stamp(d.cur.value);
        if pts <= target {
          EndsHere(loop, i);
          return;
        }
        if seekTarget < src.start && prevpts == Some(pts) {
          validFirst := Some(pts);
          EndsHere(loop, i);
          return;
        }
        GoesOn(loop, i);
        i := i + 1;
        seekTarget := seekTarget - src.second;
        prevpts := Some(pts);
        prev := d.cur.value;
      }
    }

    /** The skip loop that seek and video_read share: at most skip_frames grabs,
        and none once the target is reached. It reaches frame n exactly, or the
        end of the stream when there is no such frame. Without a frame to start
        from it does nothing, unless the target is negative. */
    method SkipTo(d: Decoder, target: int, ghost n: nat) returns (eof: bool)
      requires d.Valid(src) && (d.cur.None? ==> d.gop.Some?) && target == src.Stamp(n) && src.Fits(n)
      modifies d`cur, d`next, d`gop
      ensures d.Sequential(src)
      ensures eof <==> if old(d.cur).Some? then n >= src.count else target < 0
      ensures eof ==> d.cur == None && d.next == src.count
      ensures !eof && old(d.cur).None? ==> d.cur == None && d.next == old(d.next) && d.gop == old(d.gop)
      ensures !eof && old(d.cur).Some? ==> d.cur == Some(if old(d.cur.value) <= n then n else old(d.cur.value))
      ensures old(d.cur).Some? ==>
                d.gop == Group(src, old(d.gop), old(d.cur.value) + 1, if eof then src.count else d.cur.value + 1)
    {
      hide ToPts, SkipFrames, Monotone;
      StampFromStart(src, n);
      if d.cur.Some? {
        StampsOrder(src, d.cur.value, n);
        FramesApart(src, d.cur.value, n);
      } else {
        SkipFromNowhere(src, target);
      }
      ghost var from := if d.cur.Some? then d.cur.value else n;
      var skip := src.Skip(Minus(target, d.Pts(src)));
      eof := false;
      var i := 0;
      while i < skip && d.Pts(src) < target
        invariant d.Sequential(src) && i >= 0
        invariant d.cur.None? ==>
                    old(d.cur) == None && d.next == src.count == old(d.next) && d.gop == old(d.gop) && i == 0
        invariant d.cur.Some? ==>
                    && old(d.cur).Some? && (from <= n ==> d.cur.value == from + i <= n)
                    && (from > n ==> d.cur.value == from)
                    && d.gop == Group(src, old(d.gop), from + 1, d.cur.value + 1)
        decreases skip - i
      {
        if d.cur.Some? { StampsOrder(src, n, d.cur.value); }
        eof := Grab(d);
        if eof { return; }
        if src.key(d.cur.value) { d.gop := Some(src.Stamp(d.cur.value)); }
        i := i + 1;
      }
      if d.cur.Some? { StampsOrder(src, n, d.cur.value); }
    }

    /** video.c seek: the decoder ends on frame n, or on the first valid frame
        when that is later, or without a frame when there is no frame n; landed
        is the frame its skipping starts from. */
    method Seek(d: Decoder, target: int, ghost n: nat) returns (ghost landed: nat)
      requires d.Sequential(src) && target == src.Stamp(n) && src.Fits(n)
      modifies this`validFirst, d`cur, d`next, d`gop, d`eofReached
      ensures d.Sequential(src) && (d.eofReached <==> n >= src.count) && (d.eofReached <==> d.cur == None)
      ensures d.eofReached ==> d.next == src.count
      ensures !d.eofReached ==> d.cur.value >= n && d.cur.value >= landed
      ensures !d.eofReached && d.cur.value > n ==> FirstFrame(d.cur.value)
      ensures validFirst == if !d.eofReached && d.cur.value > n then Some(src.Stamp(d.cur.value)) else old(validFirst)
      ensures d.gop == Group(src, old(d.gop), landed, if d.eofReached then src.count else d.cur.value + 1)
      ensures src.Reaches(target, landed)
      ensures src.land(target) <= n ==> landed == src.land(target)
    {
      hide ToPts, Monotone, FirstFrame, Source.Reaches;
      InRangeLands(src, n);
      Rewind(d, target);
      if src.land(target) <= n { ReachesAtOnce(src, n, if d.eofReached then src.count else d.cur.value); }
      landed := src.count;
      if d.eofReached { return; }
      landed := d.cur.value;
      StampsOrder(src, d.cur.value, n);
      if src.key(d.cur.value) { d.gop := Some(src.Stamp(d.cur.value)); }
      var eof := SkipTo(d, target, n);
      GroupJoins(src, old(d.gop), landed, if eof then src.count else d.cur.value + 1);
      if eof { d.eofReached := true; }
    }

    // ---------------------------------------------- find_stream

    /** A decoder that can be skipped forward to pts without seeking: it is less
        than 15 frames away. */
    ghost predicate Near15(d: Decoder, pts: int)
      reads d`cur, d`gop
    {
      d.gop.Some? && 0 < Minus(pts, d.Pts(src)) < INT64_MAX && Minus(pts, d.Pts(src)) < src.Stamp(15) - src.start
    }

    ghost predicate SameGop(d: Decoder, pts: int)
      reads d`cur, d`gop
    {
      d.gop.Some? && d.gop == src.index(pts) && d.Pts(src) <= pts
    }

    /** Whether the decoder is taken for pts without seeking. */
    ghost predicate Serves(d: Decoder, pts: int)
      reads d`cur, d`gop
    {
      d.Pts(src) == pts || Near15(d, pts) || SameGop(d, pts)
    }

    /** The choice of find_stream among the first count decoders: the first that
        shows pts, else the nearest one before it if that is less than 15 frames
        away, else the last one in the same group of pictures, with a frame or
        without, else the one not used for the longest time, which has to seek. */
    ghost predicate Picked(pts: int, count: nat, chosen: nat, needSeek: bool)
      requires count <= |streams|
      reads `streams, streams
    {
      && chosen < count
      && (needSeek <==> forall i :: 0 <= i < count ==> !Serves(streams[i], pts))
      && (!needSeek ==> Serves(streams[chosen], pts))
      && ((exists i :: 0 <= i < count && streams[i].Pts(src) == pts) ==>
            && streams[chosen].Pts(src) == pts
            && forall i :: 0 <= i < chosen ==> streams[i].Pts(src) != pts)
      && ((forall i :: 0 <= i < count ==> streams[i].Pts(src) != pts)
          && (exists i :: 0 <= i < count && Near15(streams[i], pts)) ==>
            && Near15(streams[chosen], pts)
            && forall i :: 0 <= i < count && streams[i].gop.Some? && Minus(pts, streams[i].Pts(src)) > 0 ==>
                             Minus(pts, streams[chosen].Pts(src)) <= Minus(pts, streams[i].Pts(src)))
      && ((forall i :: 0 <= i < count ==> streams[i].Pts(src) != pts && !Near15(streams[i], pts)) && !needSeek ==>
            && SameGop(streams[chosen], pts)
            && forall i :: chosen < i < count && SameGop(streams[i], pts) ==> Unreplacing(streams[i], pts))
      && (needSeek ==> forall i :: 0 <= i < count ==> streams[chosen].ts.Nanos() <= streams[i].ts.Nanos())
    }

    lemma PickedMeans(pts: int, chosen: nat, needSeek: bool)
      requires len <= |streams| && Picked(pts, len, chosen, needSeek)
      ensures chosen < len && (needSeek <==> forall i :: 0 <= i < len ==> !Serves(streams[i], pts))
      ensures !needSeek ==> Serves(streams[chosen], pts)
    {
    }

    lemma NoEntryNoGop(pts: int)
      requires src.index(pts) == None
      ensures forall d: Decoder :: !SameGop(d, pts)
    {
    }

    /** video.c find_stream. */
    method FindStream(pts: int, ghost n: nat) returns (chosen: nat, needSeek: bool)
      requires Ready() && pts == src.Stamp(n) && src.Fits(n)
      ensures Picked(pts, len, chosen, needSeek)
    {
      hide ToPts, Minus, Near15, SameGop, Unreplacing, Source.Stamp, Decoder.Valid, Decoder.Pts, Timespec.Nanos,
           Source.Valid, Source.Fits;
      var near := FindNear(pts);
      if near.Some? { return near.value, false; }
      var entry := src.index(pts);
      if entry.Some? {
        var same := FindSameGop(entry.value, pts, n);
        if same.Some? { return same.value, false; }
      } else {
        NoEntryNoGop(pts);
      }
      chosen := FindOldest();
      needSeek := true;
    }

    /** "find exact or near". */
    method FindNear(pts: int) returns (found: Option<nat>)
      requires Ready()
      ensures found.Some? ==> found.value < len
      ensures (exists i :: 0 <= i < len && streams[i].Pts(src) == pts) ==>
                && found.Some? && streams[found.value].Pts(src) == pts
                && forall i :: 0 <= i < found.value ==> streams[i].Pts(src) != pts
      ensures (forall i :: 0 <= i < len ==> streams[i].Pts(src) != pts)
              && (exists i :: 0 <= i < len && Near15(streams[i], pts)) ==>
                && found.Some? && Near15(streams[found.value], pts)
                && forall i :: 0 <= i < len && streams[i].gop.Some? && Minus(pts, streams[i].Pts(src)) > 0 ==>
                                 Minus(pts, streams[found.value].Pts(src)) <= Minus(pts, streams[i].Pts(src))
      ensures (forall i :: 0 <= i < len ==> streams[i].Pts(src) != pts && !Near15(streams[i], pts)) ==> found.None?
    {
      hide Minus, Decoder.Valid, Decoder.Pts;
      var nearest: Option<nat> := None;
      var dist := INT64_MAX;
      for i := 0 to len
        invariant forall j :: 0 <= j < i ==> streams[j].Pts(src) != pts
        invariant nearest.None? ==>
                    && dist == INT64_MAX
                    && forall j :: 0 <= j < i && streams[j].gop.Some? && Minus(pts, streams[j].Pts(src)) > 0 ==>
                                     Minus(pts, streams[j].Pts(src)) >= dist
        invariant nearest.Some? ==>
                    && nearest.value < i && streams[nearest.value].gop.Some?
                    && 0 < dist == Minus(pts, streams[nearest.value].Pts(src)) < INT64_MAX
                    && forall j :: 0 <= j < i && streams[j].gop.Some? && Minus(pts, streams[j].Pts(src)) > 0 ==>
                                     Minus(pts, streams[j].Pts(src)) >= dist
      {
        if streams[i].Pts(src) == pts { return Some(i); }
        if streams[i].gop.None? { continue; }
        var d := Minus(pts, streams[i].Pts(src));
        if d > 0 && dist > d { nearest, dist := Some(i), d; }
      }
      found := if nearest.Some? && dist < Near(15 * src.num, src.den) then nearest else None;
    }

    /** The one case in which a later match does not take the place of an earlier
        one: it has no frame, and its distance is just INT64_MAX. */
    ghost predicate Unreplacing(d: Decoder, pts: int)
      reads d`cur
    {
      d.cur.None? && pts == -1
    }

    /** "find same gop". gap is never updated, so the last matching decoder is
        taken, whichever is nearest and whether or not it has a frame. */
    method FindSameGop(gopIntraPts: int, pts: int, ghost n: nat) returns (found: Option<nat>)
      requires Ready() && pts == src.Stamp(n) && src.Fits(n) && src.index(pts) == Some(gopIntraPts)
      ensures found.Some? ==>
                && found.value < len && SameGop(streams[found.value], pts)
                && forall i :: found.value < i < len && SameGop(streams[i], pts) ==>
                                 Unreplacing(streams[i], pts)
      ensures found.None? ==> forall i :: 0 <= i < len ==> !SameGop(streams[i], pts)
    {
      found := None;
      for i := 0 to len
        invariant found.Some? ==>
                    && found.value < i && SameGop(streams[found.value], pts)
                    && forall j :: found.value < j < i && SameGop(streams[j], pts) ==>
                                     Unreplacing(streams[j], pts)
        invariant found.None? ==> forall j :: 0 <= j < i ==> !SameGop(streams[j], pts)
      {
        if streams[i].gop != Some(gopIntraPts) || pts < streams[i].Pts(src) { continue; }
        GapAbove(streams[i], n);
        if found.None? || INT64_MAX > Minus(pts, streams[i].Pts(src)) { found := Some(i); }
      }
    }

    lemma GapAbove(d: Decoder, n: nat)
      requires d.Valid(src) && src.Fits(n)
      ensures Minus(src.Stamp(n), d.Pts(src)) < INT64_MAX || Unreplacing(d, src.Stamp(n))
    {
      StampFromStart(src, n);
      if d.cur.Some? { FramesApart(src, d.cur.value, n); }
    }

    method FindOldest() returns (oldest: nat)
      requires 0 < len <= |streams|
      ensures oldest < len && forall i :: 0 <= i < len ==> streams[oldest].ts.Nanos() <= streams[i].ts.Nanos()
    {
      oldest := 0;
      for i := 1 to len
        invariant oldest < len
        invariant forall j :: 0 <= j < i ==> streams[oldest].ts.Nanos() <= streams[j].ts.Nanos()
      {
        if Later(streams[oldest].ts, streams[i].ts) { oldest := i; }
      }
    }

    // ---------------------------------------------- video_read

    /** The rest of video_read, with the decoder that was found. */
    method Show(d: Decoder, target: int, needSeek: bool, ghost n: nat)
      returns (delivered: Picture, ghost landed: nat)
      requires d.Valid(src) && target == src.Stamp(n) && src.Fits(n)
      requires !needSeek ==> d.Stale(src) || (d.cur.Some? && src.Stamp(d.cur.value) <= target)
      modifies this`validFirst, d`cur, d`next, d`gop, d`eofReached
      ensures d.Valid(src) && d.cur == (if delivered.Frame? then Some(delivered.number) else None)
      ensures delivered.Untouched? <==> !needSeek && old(d.Stale(src)) && target >= 0
      ensures delivered.Blank? <==> if !needSeek && old(d.Stale(src)) then target < 0 else n >= src.count
      ensures delivered.Frame? ==> delivered.number >= n && delivered.number >= src.floor
      ensures delivered.Frame? && delivered.number > n ==> FirstFrame(delivered.number)
      ensures validFirst == if delivered.Frame? && delivered.number > n then Some(src.Stamp(delivered.number))
                            else old(validFirst)
      ensures d.Stale(src) <==>
              || delivered.Untouched?
              || (&& n >= src.count && needSeek
                  && (old(d.gop).Some? || exists k: nat :: src.land(target) <= k < src.count && src.key(k)))
      ensures needSeek ==> src.Reaches(target, landed) && (src.land(target) <= n ==> landed == src.land(target))
      ensures needSeek ==>
                d.gop == Group(src, old(d.gop), landed,
                               if delivered.Frame? then delivered.number + 1 else src.count)
      ensures !needSeek && delivered.Frame? ==>
                old(d.cur).Some? && d.gop == Group(src, old(d.gop), old(d.cur.value) + 1, delivered.number + 1)
      ensures !needSeek && !delivered.Frame? ==> d.gop == if delivered.Untouched? then old(d.gop) else None
    {
      hide ToPts, Monotone, Source.Reaches, FirstFrame;
      landed := 0;
      if needSeek {
        landed := Seek(d, target, n);
        GroupRecorded(src, old(d.gop), landed, src.count);
        if d.eofReached {
          assert landed == src.land(target) by { StampsOrder(src, src.land(target), n); }
          return Blank, landed;
        }
      }
      if d.cur.Some? { StampsOrder(src, d.cur.value, n); }
      var eof := SkipTo(d, target, n);
      if eof {
        d.eofReached := true;
        d.gop := None;
        return Blank, landed;
      }
      delivered := ScaleInto(d);
    }

    /** scale: sws_scale does nothing without data to scale, which nobody looks
        at. */
    method ScaleInto(d: Decoder) returns (delivered: Picture)
      ensures delivered == if d.cur.Some? then Frame(d.cur.value) else Untouched
    {
      delivered := if d.cur.Some? then Frame(d.cur.value) else Untouched;
    }

    /** video.c video_read of frame n at time now, finding published decoders
        ready. chosen is the decoder that was used, sought whether it sought, and
        landed where the seek came to before it skipped. */
    method Read(n: nat, published: nat, now: Timespec)
      returns (delivered: Picture, ghost chosen: nat, ghost sought: bool, ghost landed: nat)
      requires Ready() && len <= published <= |streams| && src.Fits(n)
      modifies this`validFirst, this`len, streams
      ensures Ready() && streams == old(streams) && len == published && chosen < len
      ensures sought <==> forall i :: 0 <= i < len ==> !old(Serves(streams[i], src.Stamp(n)))
      ensures old(Picked(src.Stamp(n), published, chosen, sought))
      ensures streams[chosen].ts == now
      ensures forall i :: 0 <= i < |streams| && i != chosen ==> unchanged(streams[i])
      ensures delivered.Untouched? <==> !sought && old(streams[chosen].Stale(src)) && src.Stamp(n) >= 0
      ensures delivered.Blank? <==>
              if !sought && old(streams[chosen].Stale(src)) then src.Stamp(n) < 0 else n >= src.count
      ensures delivered.Frame? ==> delivered.number >= n && delivered.number >= src.floor
      ensures delivered.Frame? && delivered.number > n ==> FirstFrame(delivered.number)
      ensures validFirst == if delivered.Frame? && delivered.number > n then Some(src.Stamp(delivered.number))
                            else old(validFirst)
      ensures streams[chosen].cur == if delivered.Frame? then Some(delivered.number) else None
      ensures streams[chosen].Stale(src) <==>
              || delivered.Untouched?
              || (&& n >= src.count && sought
                  && (|| old(streams[chosen].gop).Some?
                      || exists k: nat :: src.land(src.Stamp(n)) <= k < src.count && src.key(k)))
      ensures sought ==>
                && src.Reaches(src.Stamp(n), landed)
                && (src.land(src.Stamp(n)) <= n ==> landed == src.land(src.Stamp(n)))
                && streams[chosen].gop == Group(src, old(streams[chosen].gop), landed,
                                                if delivered.Frame? then delivered.number + 1 else src.count)
      ensures !sought && delivered.Frame? ==>
                && old(streams[chosen].cur).Some?
                && streams[chosen].gop == Group(src, old(streams[chosen].gop), old(streams[chosen].cur.value) + 1,
                                                delivered.number + 1)
      ensures !sought && !delivered.Frame? ==>
                streams[chosen].gop == if delivered.Untouched? then old(streams[chosen].gop) else None
    {
      hide ToPts, Monotone, Group, Serves, FirstFrame, Decoder.Sequential, Source.Fits, Source.Reaches, Picked;
      len := published;
      var target := src.Stamp(n);
      var i, needSeek := FindStream(target, n);
      PickedMeans(target, i, needSeek);
      chosen, sought := i, needSeek;
      NeverNowhere(streams[i], n);
      streams[i].ts := now;
      delivered, landed := Show(streams[i], target, needSeek, n);
    }

    /** A decoder that serves without seeking is stale or not past the target. */
    lemma NeverNowhere(d: Decoder, n: nat)
      requires d.Valid(src) && src.Fits(n)
      ensures Serves(d, src.Stamp(n)) ==> d.Stale(src) || (d.cur.Some? && src.Stamp(d.cur.value) <= src.Stamp(n))
    {
      StampFromStart(src, n);
      if d.cur.Some? { FramesApart(src, d.cur.value, n); }
    }
  }

  /** What reading frame n shows, whoever read what before. */
  ghost function Shown(src: Clip, n: nat): Picture {
    if n >= src.count then Blank else Frame(if n < src.floor then src.floor else n)
  }

  /** Every seek below the start time lands at or before frame n. */
  ghost predicate Decodable(src: Source, n: nat) {
    forall t :: t < src.start ==> src.land(t) <= n
  }

  /** What a request shows as long as none before it was out of range: a frame
      that every seek below the start reaches is shown itself, and with a flat
      landing there the picture is what the request would show on its own. */
  ghost predicate ShownAlone(src: Clip, n: nat, shown: Picture) {
    && shown != Untouched && (shown.Blank? <==> n >= src.count)
    && (n < src.count && Decodable(src, n) ==> shown == Frame(n))
    && (FlatBelow(src.land, src.start, src.floor) ==> shown == Shown(src, n))
  }

  lemma AloneWhenShown(v: VideoReader, n: nat, delivered: Picture)
    requires delivered.Frame? ==> n <= delivered.number && v.src.floor <= delivered.number && n < v.src.count
    requires delivered.Frame? && delivered.number > n ==> v.FirstFrame(delivered.number)
    requires delivered != Untouched && (delivered.Blank? ==> n >= v.src.count)
    ensures ShownAlone(v.src, n, delivered)
  {
  }

  /** Any sequence of requests, whichever decoders serve them. Up to and including
      the first one past the end each shows what it should; after it a request may
      also be answered by a blank picture or by none. */
  method Replay(v: VideoReader, requests: seq<Request>) returns (shown: seq<Picture>)
    requires v.Ready() && forall i :: 0 <= i < |v.streams| ==> !v.streams[i].Stale(v.src)
    requires forall q :: 0 <= q < |requests| ==> v.src.Fits(requests[q].frame)
    modifies v`validFirst, v`len, v.streams
    ensures |shown| == |requests|
    ensures forall q :: 0 <= q < |requests| && (forall p :: 0 <= p < q ==> requests[p].frame < v.src.count) ==>
              ShownAlone(v.src, requests[q].frame, shown[q])
    ensures forall q :: 0 <= q < |requests| ==>
              || ShownAlone(v.src, requests[q].frame, shown[q])
              || shown[q] == if v.src.Stamp(requests[q].frame) >= 0 then Untouched else Blank
  {
    hide ToPts, Monotone, VideoReader.Serves, Group, Source.Fits, Source.Reaches, VideoReader.Picked;
    shown := [];
    for q := 0 to |requests|
      invariant v.Ready() && v.streams == old(v.streams) && |shown| == q
      invariant (forall p :: 0 <= p < q ==> requests[p].frame < v.src.count) ==>
                  forall i :: 0 <= i < |v.streams| ==> !v.streams[i].Stale(v.src)
      invariant forall p :: 0 <= p < q && (forall o :: 0 <= o < p ==> requests[o].frame < v.src.count) ==>
                  ShownAlone(v.src, requests[p].frame, shown[p])
      invariant forall p :: 0 <= p < q ==>
                  || ShownAlone(v.src, requests[p].frame, shown[p])
                  || shown[p] == if v.src.Stamp(requests[p].frame) >= 0 then Untouched else Blank
    {
      var Request(frame, now, ready) := requests[q];
      var published := if v.len <= ready <= |v.streams| then ready else v.len;
      var delivered, chosen, sought, landed := v.Read(frame, published, now);
      if delivered.Frame? || (delivered.Blank? && frame >= v.src.count) { AloneWhenShown(v, frame, delivered); }
      shown := shown + [delivered];
    }
  }

  /** A call of video_read: for which frame, when, and how many decoders are
      ready by then. */
  datatype Request = Request(frame: nat, now: Timespec, ready: nat)

  // ------------------------------------------------ where the conditions matter

  /** Two frames; the index and the seeks know of a later time. */
  const SHORT: Clip := Source(
    1, 1, 0, 1, 2, k => k == 0, t => Some(if t < 50 then 0 else 50), t => if t < 50 then 0 else 2, 0)

  /** Frame 0, then frame 100, which is past the end, and then frame 1 twice, which
      is not. The decoder keeps its group of pictures over the second seek, is
      taken for frame 1 without seeking, and leaves the picture as it was, again
      and again. */
  method StaleGroupIsChosen(now: Timespec) returns (shown: seq<Picture>)
    ensures SHORT.count > 1 && shown == [Frame(0), Blank, Untouched, Untouched]
  {
    hide ToPts, Source.Reaches, VideoReader.Picked;
    ShortStamps();
    var v := new VideoReader(SHORT, 1);
    assert v.streams[0].Pts(SHORT) == AV_NOPTS_VALUE && !v.Serves(v.streams[0], 0);
    var first, c0, s0, l0 := v.Read(0, 1, now);
    assert first == Frame(0) && v.streams[0].gop == Some(0);
    assert !v.Serves(v.streams[0], 100);
    var past, c1, s1, l1 := v.Read(100, 1, now);
    assert v.streams[0].Stale(SHORT) && v.streams[0].gop == Some(0) && v.Serves(v.streams[0], 1);
    var second, c2, s2, l2 := v.Read(1, 1, now);
    assert second == Untouched && v.streams[0].Stale(SHORT) && v.Serves(v.streams[0], 1);
    var third, c3, s3, l3 := v.Read(1, 1, now);
    shown := [first, past, second, third];
  }

  lemma ShortStamps()
    ensures forall k: nat :: SHORT.Stamp(k) == k
  {
    forall k: nat ensures SHORT.Stamp(k) == k { Exact(k, 1, Near(k * 1, 1)); }
  }
}
