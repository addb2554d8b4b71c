/** Random-access audio over sequential decoders (audio.c). */
module Audio {
  import opened Wrappers
  import opened Rescale
  import opened Seeking
  import opened Resampling
  import opened Timestamps

  type Sample = int
  const SILENCE: Sample := 0

  /** A decoded frame: its timestamp and how many source samples it carries. */
  datatype Frame = Frame(pts: int, samples: nat)

  /** One audio stream of a file and the rate it is read at, with the
      conversions of audio.c lines 54-64 and the landing function of
      ffmpeg_seek as parameters. */
  datatype Source = Source(
    toPos: int -> int,      // pts_to_sample_pos_osr
    toPts: int -> int,      // sample_pos_osr_to_pts
    start: int,             // start time of the stream, in ticks
    second: nat,            // duration1s: whole ticks in one second
    frames: seq<Frame>,
    land: int -> nat,       // the frame a seek to a timestamp lands on
    floor: nat,             // no seek lands before this frame
    ratio: Ratio,           // source rate : output rate, reduced
    signal: int -> Sample)  // the ideal signal at the output rate
  {
    function Pos(k: nat): int
      requires k < |frames|
    {
      toPos(frames[k].pts)
    }

    /** Where frame k ends by its own stamp. */
    function End(k: nat): int
      requires k < |frames|
    {
      Pos(k) + frames[k].samples
    }

    /** Where frame k starts, the last edge being the end of the stream. */
    function Edge(k: nat): int
      requires |frames| > 0 && k <= |frames|
    {
      if k < |frames| then Pos(k) else End(k - 1)
    }

    /** Where frame k starts when it is counted from frame j: as many samples
        after it as there are between them. */
    function Counted(j: nat, k: nat): int
      requires j <= k <= |frames| && j < |frames|
    {
      if j == k then Pos(j) else Counted(j, k - 1) + frames[k - 1].samples
    }

    /** The loop that seeks back until it lands on a frame not after sample. */
    function Backwards(sample: int): Retry {
      Retry(land, (k: nat) => if k < |frames| then frames[k].pts else 0,
            (k: nat) => k < |frames| && Pos(k) <= sample, start, toPts(sample), second)
    }

    /** A seek for sample lands on frame landed and goes on to frame k, whose
        position is pos when it is counted from there, or to the end of the stream,
        where k is None; it may also land there. */
    ghost predicate Found(sample: int, landed: nat, k: Option<nat>, pos: int) {
      if land(toPts(sample)) >= |frames| then k == None
      else
        && floor <= landed < |frames| && Backwards(sample).EndsOn(landed)
        && match k
           case None => Counted(landed, |frames|) <= sample
           case Some(c) => landed <= c < |frames| && pos == Counted(landed, c)
    }

    /** Frame k carries samples, and no more than an int can count. */
    ghost predicate Sized(k: nat)
      requires k < |frames| && ratio.a > 0
    {
      Pos(k) >= 0 && frames[k].samples > 0 && Out(End(k)) - Out(Pos(k)) < 0x8000_0000
    }

    /** Frames carry samples; a seek lands on one of them, or, when it is for a
        position past the last one, possibly on the end of the stream. */
    ghost predicate Valid() {
      && 0 <= floor < |frames|
      && ratio.a > 0 && ratio.b > 0 && second >= 1
      && (forall k: nat :: k < |frames| ==> Sized(k))
      && (forall t :: floor <= land(t) <= |frames|)
      && (forall sample :: sample < Edge(|frames|) ==> land(toPts(sample)) < |frames|)
      && Monotone(land)
    }

    /** Frame k is followed by the next one without gap or overlap. */
    ghost predicate Contiguous(k: nat)
      requires k < |frames|
    {
      Edge(k + 1) == End(k)
    }

    ghost predicate Tiled()
      requires |frames| > 0
    {
      forall k: nat :: k < |frames| ==> Contiguous(k)
    }

    /** Frame k falls short of an output sample by at most one b-th of it. */
    ghost predicate Lasts(k: nat)
      requires k < |frames|
    {
      frames[k].samples * ratio.b + 1 >= ratio.a
    }

    ghost predicate Lasting() {
      forall k: nat :: k < |frames| ==> Lasts(k)
    }

    /** stream_read terminates for these: the stamps are exact and no frame is
        too short, or the rates are equal, whatever the stamps. */
    ghost predicate Readable()
      requires |frames| > 0
    {
      (Tiled() && Lasting()) || (ratio.a == 1 && ratio.b == 1)
    }

    /** Frame k has the size of the first, but the last may be shorter. */
    ghost predicate SameSize(k: nat)
      requires k < |frames|
    {
      frames[k].samples == frames[0].samples || (k == |frames| - 1 && frames[k].samples <= frames[0].samples)
    }

    /** All frames but the last are of one size, which is a whole number of
        output samples or less than one. */
    ghost predicate Uniform()
      requires |frames| > 0 && ratio.a > 0
    {
      && (frames[0].samples * ratio.b % ratio.a == 0 || frames[0].samples * ratio.b < ratio.a)
      && forall k: nat :: k < |frames| ==> SameSize(k)
    }

    /** The interval predicted for the last frame does not extend past the end. */
    ghost predicate Even()
      requires |frames| > 0 && ratio.a > 0
    {
      var last := |frames| - 1;
      last == 0 || Out(End(last - 1) + frames[last - 1].samples) <= OutEdge(|frames|)
    }

    /** Handles may share decoders for positions below until; None when they are
        not to be shared. */
    ghost predicate Shared(until: Option<int>)
      requires |frames| > 0 && ratio.a > 0
    {
      until.Some? && Uniform() && (Even() || until.value <= OutEdge(|frames|))
    }

    /** pos * factor_b / factor_a */
    function Out(p: int): int
      requires ratio.a > 0
    {
      ratio.Out(p)
    }

    /** Edge k in output samples. */
    ghost function OutEdge(k: nat): int
      requires |frames| > 0 && k <= |frames| && ratio.a > 0
    {
      Out(Edge(k))
    }

    /** What swr_convert makes of frame k: the output samples whose positions
        lie between the floored start and end of the frame (an idealisation when
        the rates differ). */
    function Converted(k: nat): (s: seq<Sample>)
      requires k < |frames| && ratio.a > 0
    {
      var first := Out(Pos(k));
      var count := Out(End(k)) - first;
      if count <= 0 then [] else seq(count, i => signal(first + i))
    }

    /** The samples of out are those of the signal from offset on, all between
        the first frame any seek lands on and the end. */
    ghost predicate Served(offset: nat, out: seq<Sample>)
      requires floor < |frames| && ratio.a > 0
    {
      && (out != [] ==> OutEdge(floor) <= offset && offset + |out| <= OutEdge(|frames|))
      && forall i :: 0 <= i < |out| ==> out[i] == signal(offset + i)
    }

    /** A seek for sample ends on a frame after it, which starts at first. */
    ghost predicate Records(sample: int, first: int)
      requires |frames| > 0 && ratio.a > 0
    {
      && land(toPts(sample)) < |frames|
      && exists k: nat :: k < |frames| && Backwards(sample).EndsOn(k) && sample < Pos(k) && OutEdge(k) == first
    }

    /** What is recorded after is what was before, or comes from a seek for
        sample. */
    ghost predicate RecordedFor(before: Option<int>, after: Option<int>, sample: int)
      requires |frames| > 0 && ratio.a > 0
    {
      after == before || (after.Some? && Records(sample, after.value))
    }

    /** The same for a seek for one of the output positions in [from, to). */
    ghost predicate RecordedIn(before: Option<int>, after: Option<int>, from: int, to: int)
      requires |frames| > 0 && ratio.a > 0 && ratio.b > 0
    {
      after == before || exists x :: from <= x < to && RecordedFor(before, after, ratio.In(x))
    }

    /** Where a frame starts that seeks for some earlier position end on. */
    ghost predicate First(first: int)
      requires |frames| > 0 && ratio.a > 0
    {
      exists sample :: Records(sample, first)
    }

    /** Such a frame starts behind pos. */
    ghost predicate BeforeFirst(pos: int)
      requires |frames| > 0 && ratio.a > 0
    {
      exists first :: First(first) && pos < first
    }

    /** At equal rates: the sample is the one that is at position x when frame k is
        decoded after frame j, all the frames between counted. */
    ghost predicate Sounds(x: int, sample: Sample, j: nat, k: nat) {
      && floor <= j <= k < |frames|
      && Counted(j, k) <= x < Counted(j, k) + frames[k].samples
      && sample == signal(Pos(k) + (x - Counted(j, k)))
    }

    ghost predicate Heard(x: int, sample: Sample) {
      exists j: nat, k: nat :: Sounds(x, sample, j, k)
    }

    /** Every sample of out, read at offset, is of that kind. */
    ghost predicate Played(offset: nat, out: seq<Sample>) {
      forall i :: 0 <= i < |out| ==> Heard(offset + i, out[i])
    }

    /** Position x is past the last sample, counted from some frame. */
    ghost predicate Past(x: int) {
      exists j: nat :: j < |frames| && Counted(j, |frames|) <= x
    }

    /** A sample that some frame was converted to. */
    ghost predicate Decoded(sample: Sample)
      requires ratio.a > 0
    {
      exists k: nat :: k < |frames| && sample in Converted(k)
    }

    lemma NothingServed(offset: nat)
      requires floor < |frames| && ratio.a > 0
      ensures Served(offset, []) && Played(offset, [])
    {
    }
  }

  type Track = s: Source | s.Valid()
    witness Source(x => x, x => x, 0, 1, [Frame(0, 1)], t => 0, 0, Ratio(1, 1, 1), x => 0)

  /** The conversions of a stream with num / den ticks per sample. */
  function AtTimeBase(src: Source, num: int, den: int): Source
    requires num > 0 && den > 0
  {
    src.(toPos := pts => FromPts(pts, num, den, src.start), toPts := sample => ToPts(sample, num, den, src.start))
  }

  /** With ticks no longer than samples, a frame stamped for sample p starts at
      p, so frames stamped back to back are contiguous. */
  lemma StampedFrameStarts(src: Source, num: int, den: int, k: nat, p: int)
    requires num >= den > 0 && k < |src.frames|
    requires src.frames[k].pts == AtTimeBase(src, num, den).toPts(p)
    ensures AtTimeBase(src, num, den).Pos(k) == p
  {
    RoundTripExact(p, num, den, src.start);
  }

  lemma {:induction false} EdgesRise(src: Track, j: nat, k: nat)
    requires src.Tiled() && j <= k <= |src.frames|
    ensures src.Edge(j) + (k - j) <= src.Edge(k)
    decreases k
  {
    if j < k {
      EdgesRise(src, j, k - 1);
      assert src.Contiguous(k - 1) && src.Sized(k - 1);
    }
  }

  /** Counting makes no difference where frames are contiguous. */
  lemma {:induction false} CountedTiled(src: Track, j: nat, k: nat)
    requires src.Tiled() && j <= k <= |src.frames| && j < |src.frames|
    ensures src.Counted(j, k) == src.Edge(k)
    decreases k
  {
    if j < k {
      CountedTiled(src, j, k - 1);
      assert src.Contiguous(k - 1);
    }
  }

  lemma PastTheLast(src: Track, x: int)
    requires src.Edge(|src.frames|) <= x
    ensures src.Past(x)
  {
    var last := |src.frames| - 1;
    assert src.Counted(last, last) == src.Pos(last);
    assert src.Counted(last, |src.frames|) == src.Edge(|src.frames|);
  }

  lemma EqualEnd(src: Track, k: nat, readpos: nat)
    requires src.ratio.a == 1 && src.ratio.b == 1 && k == |src.frames| - 1 && src.Out(src.End(k)) <= readpos
    ensures src.Past(readpos)
  {
    EqualRates(src, src.End(k), k, readpos);
    PastTheLast(src, readpos);
  }

  lemma NothingRecorded(src: Track, first: Option<int>, from: int, to: int)
    ensures src.RecordedIn(first, first, from, to)
  {
  }

  /** A seek for position x keeps what was recorded before it, or records itself. */
  lemma RecordedSince(
    src: Track, first: Option<int>, before: Option<int>, after: Option<int>, from: int, to: int, x: int)
    requires src.RecordedIn(first, before, from, to) && src.RecordedFor(before, after, src.ratio.In(x))
    requires after == before || from <= x < to
    ensures src.RecordedIn(first, after, from, to)
  {
    hide Source.Records;
  }

  lemma OutEdgesRise(src: Track, j: nat, k: nat)
    requires src.Tiled() && j <= k <= |src.frames|
    ensures src.OutEdge(j) <= src.OutEdge(k)
  {
    EdgesRise(src, j, k);
    OutMonotone(src.ratio, src.Edge(j), src.Edge(k));
  }

  /** A converted frame has as many samples as its floored start and end are
      apart. */
  lemma ConvertedLength(src: Track, k: nat)
    requires k < |src.frames|
    ensures src.OutEdge(k) == src.Out(src.Pos(k)) <= src.Out(src.End(k))
    ensures |src.Converted(k)| == src.Out(src.End(k)) - src.OutEdge(k)
    ensures src.Tiled() ==> src.OutEdge(k + 1) == src.Out(src.End(k))
  {
    assert src.Sized(k) && (src.Tiled() ==> src.Contiguous(k));
    OutMonotone(src.ratio, src.Pos(k), src.End(k));
  }

  /** The samples of a converted frame lie within the decodable range. */
  lemma ConvertedDecodable(src: Track, k: nat)
    requires src.Tiled() && src.floor <= k < |src.frames|
    ensures |src.Converted(k)| == src.OutEdge(k + 1) - src.OutEdge(k)
    ensures src.OutEdge(src.floor) <= src.OutEdge(k)
    ensures src.OutEdge(k + 1) <= src.OutEdge(|src.frames|)
  {
    OutEdgesRise(src, src.floor, k);
    OutEdgesRise(src, k + 1, |src.frames|);
    ConvertedLength(src, k);
  }

  /** A position sought before the end of frame k lies below the end of the frame that
      follows, and of the one that is predicted to. */
  lemma NextLasts(src: Track, k: nat, readpos: nat)
    requires src.Tiled() && src.Lasting() && k < |src.frames|
    requires src.ratio.In(readpos) < src.End(k)
    ensures readpos < src.Out(src.End(k) + src.frames[k].samples)
    ensures k + 1 < |src.frames| ==> readpos < src.Out(src.End(k + 1))
  {
    assert src.Contiguous(k) && src.Lasts(k);
    OutPassed(src.ratio, readpos, src.End(k), src.frames[k].samples);
    if k + 1 < |src.frames| {
      assert src.Lasts(k + 1);
      OutPassed(src.ratio, readpos, src.Pos(k + 1), src.frames[k + 1].samples);
    }
  }

  /** The label grab_next_frame computes from a correctly labelled buffer: the
      edge after the frame the buffer held. */
  ghost function LabelAfter(src: Track, held: Option<nat>): int
    requires held.Some? ==> held.value < |src.frames|
  {
    match held
    case None => AV_NOPTS_VALUE
    case Some(j) => src.OutEdge(j + 1)
  }

  lemma NextLabel(src: Track, held: Option<nat>, pos: int, written: nat)
    requires src.Tiled()
    requires held.Some? ==> src.floor <= held.value < |src.frames|
    requires held == None ==> pos == AV_NOPTS_VALUE && written == 0
    requires held.Some? ==> pos == src.OutEdge(held.value) && written == |src.Converted(held.value)|
    ensures pos + written == LabelAfter(src, held)
  {
    if held.Some? { ConvertedDecodable(src, held.value); }
  }

  /** When decoders may be shared that label is the one of the new frame k + 1,
      or it misses every position the frame was grabbed for. */
  lemma NextLabelMisses(src: Track, held: Option<nat>, k: nat, readpos: nat, until: Option<int>)
    requires src.Tiled() && src.Shared(until) && readpos < until.value && k + 1 < |src.frames|
    requires held.Some? ==> held.value < |src.frames|
    requires src.OutEdge(k + 1) <= readpos < src.Out(src.End(k) + src.frames[k].samples)
    ensures readpos < src.OutEdge(k + 2)
    ensures var pos := LabelAfter(src, held);
            pos == src.OutEdge(k + 1) || !(pos <= readpos < pos + |src.Converted(k + 1)|)
  {
    hide Ratio.Out, Source.Uniform, Source.Even, Source.Converted;
    assert src.Sized(k + 1);
    var f := FrameBound(src, k);
    NextEnds(src, k, readpos, until);
    ConvertedLength(src, k);
    ConvertedLength(src, k + 1);
    if held.Some? && held.value < k {
      EdgesRise(src, held.value + 1, k);
      LabelBehind(src.ratio, src.Edge(held.value + 1), src.Pos(k), src.frames[k].samples, f);
    } else if held.Some? && held.value > k {
      OutEdgesRise(src, k + 2, held.value + 1);
    }
  }

  /** Frame k has f output samples or less than one, and the next one no more. */
  lemma FrameBound(src: Track, k: nat) returns (f: nat)
    requires src.Tiled() && src.Uniform() && k + 1 < |src.frames|
    ensures var n := src.frames[k].samples;
            n * src.ratio.b == f * src.ratio.a || (n * src.ratio.b < src.ratio.a && f == 1)
    ensures src.Out(src.End(k + 1)) <= src.OutEdge(k + 1) + f
  {
    assert src.SameSize(k) && src.SameSize(k + 1);
    f := CountBound(src.ratio, src.frames[k].samples);
    OutAtMost(src.ratio, src.Pos(k + 1), src.frames[k + 1].samples, src.frames[k].samples, f);
  }

  /** A position the next frame was predicted for is in it. */
  lemma NextEnds(src: Track, k: nat, readpos: nat, until: Option<int>)
    requires src.Tiled() && src.Shared(until) && readpos < until.value && k + 1 < |src.frames|
    requires readpos < src.Out(src.End(k) + src.frames[k].samples)
    ensures readpos < src.OutEdge(k + 2)
  {
    assert src.Contiguous(k) && src.Contiguous(k + 1) && src.SameSize(k) && src.SameSize(k + 1);
  }

  /** Where a seek for output position readpos leaves it: against the landed
      frame it is inside, or not before its end, or before its start. */
  lemma SoughtReaches(src: Track, k: nat, readpos: nat)
    requires src.Lasting() && k < |src.frames|
    requires src.Edge(k) <= src.ratio.In(readpos) ==> src.ratio.In(readpos) < src.End(k)
    ensures src.Edge(k) <= src.ratio.In(readpos) ==> src.OutEdge(k) <= readpos
    ensures src.Edge(k) > src.ratio.In(readpos) ==> readpos < src.Out(src.End(k))
  {
    if src.Edge(k) <= src.ratio.In(readpos) {
      OutReached(src.ratio, readpos, src.Edge(k));
    } else {
      assert src.Lasts(k);
      OutPassed(src.ratio, readpos, src.Edge(k), src.frames[k].samples);
    }
  }

  /** Without a rate change positions are the same on both sides. */
  lemma EqualRates(src: Track, pos: int, k: nat, readpos: nat)
    requires src.ratio.a == 1 && src.ratio.b == 1 && k < |src.frames|
    ensures src.Out(pos) == pos && src.ratio.In(readpos) == readpos
    ensures src.Out(src.Pos(k)) == src.Pos(k) && src.Out(src.End(k)) == src.Pos(k) + src.frames[k].samples
  {
  }

  lemma EqualConverted(src: Track, k: nat, i: int)
    requires src.ratio.a == 1 && src.ratio.b == 1 && k < |src.frames| && 0 <= i < |src.Converted(k)|
    ensures |src.Converted(k)| == src.frames[k].samples && src.Converted(k)[i] == src.signal(src.Pos(k) + i)
  {
    EqualRates(src, 0, k, 0);
  }

  /** struct resampler. */
  class Resampler {
    var pos: int           // position of buf[0] in the output signal
    var written: nat       // number of samples in buf
    var buf: seq<Sample>
    ghost var held: Option<nat>  // the frame buf was converted from

    constructor ()
      ensures pos == AV_NOPTS_VALUE && held == None && buf == [] && written == 0
    {
      pos, written, buf, held := AV_NOPTS_VALUE, 0, [], None;
    }

    /** buf is what swr_convert made of frame held. */
    ghost predicate Holds(src: Track)
      reads this
    {
      match held
      case None => buf == [] && written == 0
      case Some(k) => src.floor <= k < |src.frames| && buf == src.Converted(k) && written == |buf|
    }

    /** pos is where the samples of buf belong. */
    ghost predicate Labelled(src: Track)
      reads this
    {
      && Holds(src)
      && match held
         case None => pos == AV_NOPTS_VALUE
         case Some(k) => pos == src.OutEdge(k)
    }

    predicate InBuffer(readpos: int)
      reads this
    {
      pos <= readpos < pos + written
    }

    /** swr_convert of frame k into buf. */
    method Convert(src: Track, k: nat)
      requires src.floor <= k < |src.frames|
      modifies `buf, `held, `written
      ensures held == Some(k) && Holds(src)
    {
      buf := src.Converted(k);
      written := |buf|;
      held := Some(k);
    }
  }

  /** struct stream: a decoder with the frame it decoded last, if any, the frame
      its next grab decodes, and when it was last used. */
  class Decoder {
    var cur: Option<nat>
    var next: nat
    var ts: Timespec

    constructor ()
      ensures cur == None && next == 0
    {
      cur, next, ts := None, 0, Timespec(0, 0);
    }

    ghost predicate Valid(src: Track)
      reads this`cur, this`next
    {
      && next <= |src.frames|
      && (cur.Some? ==> src.floor <= cur.value < |src.frames|)
    }

    /** Grabbing continues with the frame after the current one. */
    ghost predicate Sequential(src: Track)
      reads this`cur, this`next
    {
      Valid(src) && (cur.Some? ==> next == cur.value + 1)
    }

    /** ffmpeg_seek: the decoded frame stays until the next grab. */
    method SeekTo(src: Track, ts: int)
      requires Valid(src)
      modifies this`next
      ensures Valid(src) && next == src.land(ts)
    {
      next := src.land(ts);
    }

    /** ffmpeg_grab: false at the end of the stream, which drops the frame. */
    method Grab(src: Track) returns (ok: bool)
      requires Valid(src) && src.floor <= next
      modifies this`next, this`cur
      ensures Sequential(src)
      ensures ok <==> old(next) < |src.frames|
      ensures ok ==> cur == Some(old(next))
      ensures !ok ==> cur == None
    {
      ok := next < |src.frames|;
      if ok {
        cur, next := Some(next), next + 1;
      } else {
        cur := None;
      }
    }
  }

  /** struct audio. */
  class AudioReader {
    const src: Track
    var streams: seq<Decoder>
    var len: nat                 // how many of them are published
    var validFirst: Option<int>  // valid_first_sample_pos_asr

    /** audio_create: one decoder is open, the others are still to be. */
    constructor (src: Track, cap: nat)
      requires cap > 0
      ensures Ready() && this.src == src && len == 1 && |streams| == cap && validFirst == None && fresh(streams)
      ensures forall i :: 0 <= i < cap ==> streams[i].cur == None
    {
      this.src, len, validFirst := src, 1, None;
      streams := [];
      new;
      for i := 0 to cap
        invariant |streams| == i && fresh(streams) && len == 1 && validFirst == None
        invariant forall j :: 0 <= j < i ==> streams[j].Sequential(src) && streams[j].cur == None
        invariant forall j, k :: 0 <= j < k < i ==> streams[j] != streams[k]
      {
        var d := new Decoder();
        streams := streams + [d];
      }
    }

    /** Frame k is where some seek below the start time lands. */
    ghost predicate FirstFrame(k: nat) {
      exists t :: t < src.start && k == src.land(t)
    }

    /** validFirst is where such a frame starts. */
    ghost predicate Valid()
      reads this`validFirst
    {
      validFirst.Some? ==> src.First(validFirst.value)
    }

    /** The first loop of audio.c seek: step back a second at a time until the
        landed frame is not past sample, or is recorded as the first valid one,
        which is the frame that Seeking says. It fails when the first seek lands on
        the end of the stream. */
    method Rewind(d: Decoder, sample: int) returns (ok: bool, pos: int)
      requires d.Valid(src)
      modifies this`validFirst, d`cur, d`next
      ensures d.Sequential(src)
      ensures ok <==> src.land(src.toPts(sample)) < |src.frames|
      ensures !ok ==> d.cur == None && validFirst == old(validFirst)
      ensures ok ==> d.cur.Some? && pos == src.Pos(d.cur.value) && src.Backwards(sample).EndsOn(d.cur.value)
      ensures ok && pos <= sample ==> validFirst == old(validFirst)
      ensures ok && pos > sample ==> validFirst == Some(src.Out(pos)) && FirstFrame(d.cur.value)
      ensures src.RecordedFor(old(validFirst), validFirst, sample)
    {
      hide Retry.Attempt, Retry.Stops, Retry.EndsOn;
      pos := 0;
      ghost var loop, i := src.Backwards(sample), 0;
      AttemptAfter(loop, 0);
      var timeStamp := src.toPts(sample);
      var prevpts: Option<int> := None;
      ghost var prev: nat := |src.frames|;
      while true
        invariant d.Valid(src) && validFirst == old(validFirst)
        invariant prevpts.Some? ==>
                    && prev < |src.frames| && prevpts.value == src.frames[prev].pts
                    && prev == src.land(timeStamp + src.second)
        invariant prevpts.Some? ==> src.land(src.toPts(sample)) < |src.frames|
        invariant prevpts.None? ==> prev == |src.frames| && timeStamp == src.toPts(sample)
        invariant timeStamp == loop.Attempt(i) && (i == 0 <==> prevpts.None?)
        invariant i > 0 ==> loop.Attempt(i - 1) == timeStamp + src.second
        invariant forall j: nat :: j < i ==> !loop.Stops(j)
        decreases if timeStamp >= src.start then timeStamp - src.start + 1 else 0, prev
      {
        d.SeekTo(src, timeStamp);
        ok := d.Grab(src);
        assert src.land(timeStamp) <= src.land(timeStamp + src.second);
        if !ok { return; }
        pos := src.Pos(d.cur.value);
        if pos <= sample {
          EndsHere(loop, i);
          return;
        }
        if timeStamp < src.start && prevpts == Some(src.frames[d.cur.value].pts) {
          validFirst := Some(src.Out(pos));
          EndsHere(loop, i);
          return;
        }
        GoesOn(loop, i);
        i := i + 1;
        timeStamp := timeStamp - src.second;
        prevpts := Some(src.frames[d.cur.value].pts);
        prev := d.cur.value;
      }
    }

    /** audio.c seek. Ends on the frame that contains sample, or on the frame
        recorded as the first valid one, or with the end of the stream; pos is
        counted from the frame it landed on. */
    method Seek(d: Decoder, sample: int) returns (ok: bool, pos: int, ghost landed: nat)
      requires d.Valid(src)
      modifies this`validFirst, d`cur, d`next
      ensures d.Sequential(src)
      ensures !ok ==> d.cur == None && validFirst == old(validFirst)
      ensures !ok && src.Tiled() ==> src.Edge(|src.frames|) <= sample
      ensures src.Found(sample, landed, d.cur, pos)
      ensures ok ==> d.cur.Some? && (src.Tiled() ==> pos == src.Edge(d.cur.value))
      ensures ok && pos <= sample ==>
                sample < pos + src.frames[d.cur.value].samples && validFirst == old(validFirst)
      ensures ok && pos > sample ==>
                pos == src.Edge(d.cur.value) && validFirst == Some(src.Out(pos)) && FirstFrame(d.cur.value)
      ensures src.RecordedFor(old(validFirst), validFirst, sample)
    {
      hide Monotone, FirstFrame, Source.Backwards, Source.Records, Retry.EndsOn;
      landed := 0;
      ok, pos := Rewind(d, sample);
      if !ok { return; }
      landed := d.cur.value;
      if src.Tiled() { CountedTiled(src, landed, |src.frames|); }
      while pos + src.frames[d.cur.value].samples <= sample
        invariant ok && d.Sequential(src) && d.cur.Some? && landed <= d.cur.value
        invariant pos == src.Counted(landed, d.cur.value) && (src.Tiled() ==> pos == src.Edge(d.cur.value))
        invariant validFirst == old(validFirst) || pos > sample
        invariant src.RecordedFor(old(validFirst), validFirst, sample)
        invariant pos > sample ==>
                    pos == src.Edge(d.cur.value) && validFirst == Some(src.Out(pos)) && FirstFrame(d.cur.value)
        decreases |src.frames| - d.cur.value
      {
        assert src.Tiled() ==> src.Contiguous(d.cur.value);
        pos := pos + src.frames[d.cur.value].samples;
        ok := d.Grab(src);
        if !ok { return; }
      }
    }

    /** audio.c seek_frame. */
    method SeekFrame(r: Resampler, d: Decoder, sample: int) returns (ok: bool, ghost pos: int, ghost landed: nat)
      requires d.Valid(src)
      modifies this`validFirst, d`cur, d`next, r
      ensures d.Sequential(src)
      ensures !ok ==> d.cur == None && validFirst == old(validFirst) && unchanged(r)
      ensures !ok && src.Tiled() ==> src.Edge(|src.frames|) <= sample
      ensures ok ==> d.cur.Some? && r.held == d.cur && r.Holds(src) && r.pos == src.Out(pos)
      ensures src.Found(sample, landed, d.cur, pos)
      ensures ok && src.Tiled() ==> pos == src.Edge(d.cur.value) && r.Labelled(src)
      ensures ok && pos <= sample ==>
                sample < pos + src.frames[d.cur.value].samples && validFirst == old(validFirst)
      ensures ok && pos > sample ==>
                pos == src.Edge(d.cur.value) && validFirst == Some(src.Out(pos)) && FirstFrame(d.cur.value)
      ensures src.RecordedFor(old(validFirst), validFirst, sample)
    {
      hide Source.Found, Source.Tiled, Source.Records, FirstFrame;
      var current;
      ok, current, landed := Seek(d, sample);
      pos := current;
      if !ok { return; }
      r.Convert(src, d.cur.value);
      r.pos := src.Out(current);
    }

    /** audio.c grab_next_frame: the new label continues the old one, whatever
        frame the buffer held before. */
    method GrabNextFrame(r: Resampler, d: Decoder) returns (ok: bool)
      requires d.Sequential(src) && d.cur.Some?
      modifies d`cur, d`next, r
      ensures d.Sequential(src)
      ensures ok <==> old(d.cur.value) + 1 < |src.frames|
      ensures !ok ==> d.cur == None && unchanged(r)
      ensures ok ==> d.cur == Some(old(d.cur.value) + 1) && r.held == d.cur && r.Holds(src)
      ensures ok ==> r.pos == old(r.pos) + old(r.written)
    {
      ok := d.Grab(src);
      if !ok { return; }
      r.pos := r.pos + r.written;
      r.Convert(src, d.cur.value);
    }

    /** audio.c convert_frame. */
    method ConvertFrame(r: Resampler, d: Decoder)
      requires d.Valid(src) && d.cur.Some?
      modifies r
      ensures r.held == d.cur && r.Labelled(src)
    {
      r.Convert(src, d.cur.value);
      r.pos := src.Out(src.Pos(d.cur.value));
    }

    /** audio.c read_buffer. */
    method ReadBuffer(r: Resampler, readpos: int, length: nat, read: nat, dest: array<Sample>) returns (read': nat)
      requires r.InBuffer(readpos) && r.written == |r.buf| && read < length <= dest.Length
      modifies dest
      ensures read < read' <= length && read' - read <= r.written - (readpos - r.pos)
      ensures read' == length || readpos + (read' - read) == r.pos + r.written
      ensures forall i :: read <= i < read' ==> dest[i] == r.buf[readpos - r.pos + (i - read)]
      ensures forall i :: 0 <= i < dest.Length && !(read <= i < read') ==> dest[i] == old(dest[i])
      ensures dest[..read] == old(dest[..read]) && dest[length..] == old(dest[length..])
    {
      var bufferOffset := readpos - r.pos;
      var samples := if length - read < r.written - bufferOffset then length - read else r.written - bufferOffset;
      forall i | read <= i < read + samples {
        dest[i] := r.buf[bufferOffset + (i - read)];
      }
      read' := read + samples;
    }

    // ---------------------------------------------- stream_read

    predicate InGap(readpos: int)
      reads this`validFirst
    {
      validFirst.Some? && readpos < validFirst.value
    }

    /** readpos lies in the output interval of the decoder's frame. */
    predicate InFrame(d: Decoder, readpos: int)
      reads d`cur
    {
      && d.cur.Some? && d.cur.value < |src.frames|
      && (var pos, samples := src.Pos(d.cur.value), src.frames[d.cur.value].samples;
          src.Out(pos) <= readpos < src.Out(pos + samples))
    }

    /** readpos lies in the output interval predicted for the next frame. */
    predicate InNextFrame(d: Decoder, readpos: int)
      reads d`cur
    {
      && d.cur.Some? && d.cur.value < |src.frames|
      && (var pos, samples := src.Pos(d.cur.value), src.frames[d.cur.value].samples;
          src.Out(pos + samples) <= readpos < src.Out(pos + samples * 2))
    }

    /** The state in which what stream_read returns below until is right: the
        frames are exact, the buffer is labelled correctly, and either decoders
        may be shared or the buffer holds the decoder's own frame. */
    ghost predicate Good(r: Resampler, d: Decoder, until: Option<int>)
      reads r, d`cur
    {
      src.Tiled() && r.Labelled(src) && (src.Shared(until) || (d.cur.Some? ==> r.held == d.cur))
    }

    /** At equal rates the state of a handle that is alone with its decoder,
        whatever the stamps: the buffer holds the decoder's frame, under a position
        counted from some frame. */
    ghost predicate InStep(r: Resampler, d: Decoder)
      reads r, d`cur
    {
      && src.ratio.a == 1 && src.ratio.b == 1 && r.Holds(src) && (d.cur.Some? ==> r.held == d.cur)
      && (r.held.Some? ==> CountedFrom(r.pos, r.held.value))
    }

    ghost predicate CountedFrom(pos: int, k: nat) {
      exists j: nat :: src.floor <= j <= k < |src.frames| && pos == src.Counted(j, k)
    }

    /** Nothing more can be read at readpos, whatever the stamps. */
    ghost predicate Exhausted(readpos: int)
      reads this`validFirst
    {
      src.Past(readpos) || InGap(readpos)
    }

    /** The one state with a wrong label: grab_next_frame has just replaced the
        buffer of an out-of-step resampler. The label misses readpos, so the
        next turn converts the decoder's frame again and labels it right. */
    ghost predicate Mislabelled(r: Resampler, d: Decoder, readpos: int, until: Option<int>)
      reads this`validFirst, r, d`cur
    {
      && src.Tiled() && src.Shared(until) && r.Holds(src) && r.held == d.cur
      && InFrame(d, readpos) && !r.InBuffer(readpos) && !InGap(readpos)
    }

    /** What stream_read needs of the buffer before it may serve readpos. */
    ghost predicate Serving(r: Resampler, d: Decoder, readpos: int, until: Option<int>)
      reads this`validFirst, r, d`cur
    {
      Good(r, d, until) || Mislabelled(r, d, readpos, until)
    }

    /** After a seek: readpos can be served without another one. */
    ghost predicate WithinReach(r: Resampler, d: Decoder, readpos: int)
      reads this`validFirst, r, d`cur
    {
      || InGap(readpos) || r.InBuffer(readpos) || InFrame(d, readpos)
      || (&& src.Tiled() && src.Lasting() && d.cur.Some? && d.cur.value < |src.frames|
          && src.Out(src.End(d.cur.value)) <= readpos && src.ratio.In(readpos) < src.End(d.cur.value))
    }

    /** Turns left before readpos is served or a seek is needed. */
    ghost function TurnsLeft(r: Resampler, d: Decoder, readpos: int): nat
      reads this`validFirst, r, d`cur
    {
      if InGap(readpos) || r.InBuffer(readpos) then 0
      else if InFrame(d, readpos) then 1
      else if d.cur.Some? && d.cur.value < |src.frames| then 2 + (|src.frames| - d.cur.value)
      else 0
    }

    lemma NoSecondSeek(r: Resampler, d: Decoder, readpos: nat)
      requires WithinReach(r, d, readpos) && !InGap(readpos) && !r.InBuffer(readpos) && !InFrame(d, readpos)
      ensures InNextFrame(d, readpos)
    {
      NextLasts(src, d.cur.value, readpos);
    }

    /** Nothing can be read at readpos: the stream has ended, or readpos is
        before the first valid sample. */
    ghost predicate Stopped(readpos: int)
      reads this`validFirst
    {
      src.OutEdge(|src.frames|) <= readpos || InGap(readpos)
    }

    /** The turn for "in the resampled buffer". */
    method ServeTurn(r: Resampler, ghost d: Decoder, offset: nat, length: nat, read: nat, dest: array<Sample>,
                     ghost until: Option<int>)
      returns (read': nat)
      requires r.Holds(src) && r.InBuffer(offset + read) && read < length <= dest.Length
      modifies dest
      ensures read < read' <= length && dest[length..] == old(dest[length..])
      ensures old(Filled(dest[..read])) ==> Filled(dest[..read'])
      ensures Serving(r, d, offset + read, until) && src.Served(offset, old(dest[..read])) ==>
                Good(r, d, until) && src.Served(offset, dest[..read'])
      ensures InStep(r, d) && src.Played(offset, old(dest[..read])) ==> src.Played(offset, dest[..read'])
    {
      hide Source.Tiled, Source.Shared, Source.Edge, Source.Played, InStep;
      ghost var before := dest[..read];
      ConvertedLength(src, r.held.value);
      read' := ReadBuffer(r, offset + read, length, read, dest);
      ghost var out := dest[..read'];
      assert out[..read] == before;
      if Filled(before) { FilledOn(r, offset, before, out); }
      if src.Tiled() && r.Labelled(src) && src.Served(offset, before) { ServedOn(r, offset, before, out); }
      if InStep(r, d) && src.Played(offset, before) { PlayedOn(r, d, offset, before, out); }
    }

    /** What comes out of a buffer whose label is counted sounds accordingly. */
    lemma PlayedOn(r: Resampler, d: Decoder, offset: nat, before: seq<Sample>, out: seq<Sample>)
      requires InStep(r, d) && src.Played(offset, before) && r.InBuffer(offset + |before|)
      requires |before| <= |out| && out[..|before|] == before && offset + |out| <= r.pos + r.written
      requires forall i :: |before| <= i < |out| ==> out[i] == r.buf[offset + i - r.pos]
      ensures src.Played(offset, out)
    {
      hide Source.Counted, Source.Pos, Source.Out, Source.Converted;
      var k := r.held.value;
      var j: nat :| src.floor <= j <= k && r.pos == src.Counted(j, k);
      forall i | 0 <= i < |out| ensures src.Heard(offset + i, out[i]) {
        if i < |before| {
          assert out[i] == out[..|before|][i] == before[i];
        } else {
          EqualConverted(src, k, offset + i - r.pos);
          assert src.Sounds(offset + i, out[i], j, k);
        }
      }
    }

    /** What comes out of a buffer under its right position is the signal. */
    lemma ServedOn(r: Resampler, offset: nat, before: seq<Sample>, out: seq<Sample>)
      requires src.Tiled() && r.Labelled(src) && src.Served(offset, before) && r.InBuffer(offset + |before|)
      requires |before| <= |out| && out[..|before|] == before && offset + |out| <= r.pos + r.written
      requires forall i :: |before| <= i < |out| ==> out[i] == r.buf[offset + i - r.pos]
      ensures src.Served(offset, out)
    {
      hide Source.Tiled, Ratio.Out;
      ConvertedDecodable(src, r.held.value);
      forall i | 0 <= i < |before| ensures out[i] == before[i] { assert out[..|before|][i] == out[i]; }
    }

    /** Whatever comes out of a buffer was decoded. */
    lemma FilledOn(r: Resampler, offset: nat, before: seq<Sample>, out: seq<Sample>)
      requires Filled(before) && r.Holds(src) && r.InBuffer(offset + |before|)
      requires |before| <= |out| && out[..|before|] == before && offset + |out| <= r.pos + r.written
      requires forall i :: |before| <= i < |out| ==> out[i] == r.buf[offset + i - r.pos]
      ensures Filled(out)
    {
      hide Source.Converted;
      forall i | 0 <= i < |out| ensures out[i] == SILENCE || src.Decoded(out[i]) {
        if i < |before| {
          assert before[i] == out[..|before|][i] == out[i];
        } else {
          assert out[i] in src.Converted(r.held.value);
        }
      }
    }

    /** Nothing but silence and decoded samples. */
    ghost predicate Filled(out: seq<Sample>) {
      forall i :: 0 <= i < |out| ==> out[i] == SILENCE || src.Decoded(out[i])
    }

    /** The turn for "in the current frame". */
    method ConvertTurn(r: Resampler, d: Decoder, readpos: nat, ghost until: Option<int>)
      requires d.Sequential(src) && InFrame(d, readpos) && !InGap(readpos) && !r.InBuffer(readpos)
      modifies r
      ensures r.Holds(src) && WithinReach(r, d, readpos)
      ensures src.Tiled() ==> Good(r, d, until)
      ensures src.ratio.a == 1 && src.ratio.b == 1 ==> InStep(r, d)
      ensures TurnsLeft(r, d, readpos) < old(TurnsLeft(r, d, readpos))
    {
      hide Source.Tiled, Source.Shared, Source.Edge, Source.Converted, Source.Out;
      ConvertedLength(src, d.cur.value);
      ConvertFrame(r, d);
      if src.ratio.a == 1 && src.ratio.b == 1 { CountedFromItself(d.cur.value, r.pos); }
    }

    lemma CountedFromItself(k: nat, pos: int)
      requires src.ratio.a == 1 && src.ratio.b == 1 && src.floor <= k < |src.frames| && pos == src.OutEdge(k)
      ensures CountedFrom(pos, k)
    {
      EqualRates(src, src.Pos(k), k, 0);
      assert pos == src.Counted(k, k);
    }

    /** The label after the next frame was grabbed is counted from the same frame. */
    lemma CountedOn(k: nat, pos: int, written: nat)
      requires src.ratio.a == 1 && src.ratio.b == 1 && CountedFrom(pos, k) && k + 1 < |src.frames|
      requires written == |src.Converted(k)|
      ensures CountedFrom(pos + written, k + 1)
    {
      assert src.Sized(k);
      EqualConverted(src, k, 0);
      var j: nat :| src.floor <= j <= k < |src.frames| && pos == src.Counted(j, k);
      assert pos + written == src.Counted(j, k + 1);
    }

    /** The turn for "in the next frame". */
    method GrabTurn(r: Resampler, d: Decoder, readpos: nat, ghost until: Option<int>) returns (ok: bool)
      requires d.Sequential(src) && r.Holds(src) && InNextFrame(d, readpos)
      requires until.Some? ==> readpos < until.value
      requires !InGap(readpos) && !r.InBuffer(readpos)
      modifies d`cur, d`next, r
      ensures d.Sequential(src) && r.Holds(src)
      ensures !ok && src.Tiled() ==> Stopped(readpos)
      ensures !ok && old(Good(r, d, until)) ==> Good(r, d, until)
      ensures ok && old(Good(r, d, until)) ==> Serving(r, d, readpos, until)
      ensures !ok && src.ratio.a == 1 && src.ratio.b == 1 ==> Exhausted(readpos)
      ensures old(InStep(r, d)) ==> InStep(r, d)
      ensures ok ==> TurnsLeft(r, d, readpos) < old(TurnsLeft(r, d, readpos))
      ensures ok && old(WithinReach(r, d, readpos)) ==> WithinReach(r, d, readpos)
    {
      hide Source.Tiled, Source.Lasting, Source.Uniform, Source.Even, Source.Edge, Source.Converted, Source.Out,
           Source.Past, CountedFrom, Source.Counted, Ratio.In, Source.Readable, FirstFrame, Valid;
      ghost var good, k, before := Good(r, d, until), d.cur.value, r.held;
      ghost var equal, step := src.ratio.a == 1 && src.ratio.b == 1, InStep(r, d);
      ghost var reach := WithinReach(r, d, readpos);
      ConvertedLength(src, k);
      if good { NextLabel(src, before, r.pos, r.written); }
      ok := GrabNextFrame(r, d);
      if ok {
        ConvertedLength(src, k + 1);
        if reach { NextLasts(src, k, readpos); }
        if good && src.Shared(until) { NextLabelMisses(src, before, k, readpos, until); }
        if step { CountedOn(k, old(r.pos), old(r.written)); }
      } else if equal {
        EqualEnd(src, k, readpos);
      }
    }

    /** The last resort. */
    method SeekTurn(r: Resampler, d: Decoder, readpos: nat, ghost until: Option<int>) returns (ok: bool)
      requires Valid() && d.Sequential(src) && r.Holds(src)
      modifies this`validFirst, d`cur, d`next, r
      ensures Valid() && d.Sequential(src) && r.Holds(src)
      ensures !ok && src.Tiled() ==> Stopped(readpos)
      ensures !ok && old(Good(r, d, until)) ==> Good(r, d, until)
      ensures ok && src.Tiled() ==> Good(r, d, until)
      ensures ok && src.Readable() ==> WithinReach(r, d, readpos)
      ensures src.ratio.a == 1 && src.ratio.b == 1 ==> if ok then InStep(r, d) else Exhausted(readpos)
      ensures !ok && old(InStep(r, d)) ==> InStep(r, d)
      ensures src.RecordedFor(old(validFirst), validFirst, src.ratio.In(readpos))
    {
      hide Monotone, Ratio.Out, Ratio.In, Source.Tiled, Source.Lasting, Source.Converted, Source.Shared, Source.Found,
           Source.Records, Source.Past, CountedFrom;
      ghost var pos, landed;
      ok, pos, landed := SeekFrame(r, d, src.ratio.In(readpos));
      if ok {
        ConvertedLength(src, d.cur.value);
        if src.Tiled() && src.Lasting() {
          SoughtReaches(src, d.cur.value, readpos);
        } else if src.Readable() {
          EqualRates(src, pos, d.cur.value, readpos);
        }
      } else if src.Tiled() {
        OutReached(src.ratio, readpos, src.Edge(|src.frames|));
      }
      if src.ratio.a == 1 && src.ratio.b == 1 { EqualSeek(readpos, landed, d.cur, pos); }
    }

    /** What a seek leaves at equal rates. */
    lemma EqualSeek(readpos: nat, landed: nat, k: Option<nat>, pos: int)
      requires src.ratio.a == 1 && src.ratio.b == 1 && src.Found(src.ratio.In(readpos), landed, k, pos)
      ensures k == None ==> Exhausted(readpos)
      ensures k.Some? ==> CountedFrom(src.Out(pos), k.value)
    {
      EqualRates(src, pos, |src.frames| - 1, readpos);
      var t := src.toPts(readpos);
      assert src.Found(readpos, landed, k, pos) && src.land(t) <= |src.frames|;
      if src.land(t) == |src.frames| {
        PastTheLast(src, readpos);
      } else if k == None {
        assert src.Counted(landed, |src.frames|) <= readpos;
      } else {
        assert src.Out(pos) == pos == src.Counted(landed, k.value);
      }
    }

    /** memset to zero. */
    method FillSilence(dest: array<Sample>, from: nat, to: nat)
      requires from <= to <= dest.Length
      modifies dest
      ensures forall i :: from <= i < to ==> dest[i] == SILENCE
      ensures forall i :: 0 <= i < from ==> dest[i] == old(dest[i])
      ensures dest[..from] == old(dest[..from]) && dest[to..] == old(dest[to..])
    {
      forall i | from <= i < to { dest[i] := SILENCE; }
    }

    /** The end of stream_read: what was not read is silence. */
    method Pad(offset: nat, length: nat, read: nat, dest: array<Sample>, ghost cut: nat)
      requires cut <= read <= length <= dest.Length
      requires forall i :: cut <= i < read ==> dest[i] == SILENCE
      requires Filled(dest[..cut])
      modifies dest
      ensures dest[length..] == old(dest[length..]) && Filled(dest[..length])
      ensures (cut == length || Stopped(offset + cut)) && old(src.Served(offset, dest[..cut])) ==>
                Delivered(src, validFirst, offset, dest[..length], cut)
      ensures (cut == length || Exhausted(offset + cut)) && old(src.Played(offset, dest[..cut])) ==>
                PlayedUpTo(src, validFirst, offset, dest[..length], cut)
    {
      hide Source.Played, Source.Past;
      ghost var before := dest[..];
      FillSilence(dest, read, length);
      ghost var out := dest[..length];
      assert out[..cut] == before[..cut];
      forall i | 0 <= i < length ensures out[i] == SILENCE || src.Decoded(out[i]) {
        if i < cut { assert out[i] == before[..cut][i]; }
      }
    }

    /** audio.c stream_read. It ends, and fills exactly length samples, whenever
        the source is readable; from a good state cut is how many of them came
        from the signal, and the rest is silence. */
    method StreamRead(r: Resampler, d: Decoder, offset: nat, length: nat, dest: array<Sample>,
                      ghost until: Option<int>)
      returns (ghost cut: nat)
      requires until.Some? ==> offset + length <= until.value
      requires Valid() && d.Sequential(src) && r.Holds(src) && src.Readable() && length <= dest.Length
      modifies this`validFirst, r, d`cur, d`next, dest
      ensures Valid() && d.Sequential(src) && r.Holds(src)
      ensures dest[length..] == old(dest[length..]) && Filled(dest[..length])
      ensures old(Good(r, d, until)) ==>
                Good(r, d, until) && Delivered(src, validFirst, offset, dest[..length], cut)
      ensures old(InStep(r, d)) ==> InStep(r, d) && PlayedUpTo(src, validFirst, offset, dest[..length], cut)
      ensures src.RecordedIn(old(validFirst), validFirst, offset, offset + length)
    {
      hide TurnsLeft, Good, WithinReach, InFrame, InNextFrame, Delivered, Monotone, Filled, Stopped,
           InStep, Exhausted, PlayedUpTo, Serving, FirstFrame, Source.RecordedFor, Source.RecordedIn, Source.First,
           Source.Played, Source.Readable, Source.Out, Resampler.InBuffer, Decoder.Valid, Decoder.Sequential,
           Source.Served, Source.Converted, Source.Edge, Source.Tiled, Resampler.Labelled, Resampler.Holds;
      src.NothingServed(offset);
      NothingFilled();
      ghost var good := Good(r, d, until);
      GoodMeans(r, d, offset, until);
      NothingRecorded(src, validFirst, offset, offset + length);
      ghost var step := InStep(r, d);
      var read := 0;
      cut := 0;
      ghost var sought := false;
      ghost var turns := TurnsLeft(r, d, offset);
      while read < length
        invariant Valid() && d.Sequential(src) && r.Holds(src) && cut == read <= length
        invariant dest[length..] == old(dest[length..]) && Filled(dest[..read])
        invariant good ==> Serving(r, d, offset + read, until) && (read == length ==> Good(r, d, until))
        invariant good ==> src.Served(offset, dest[..read])
        invariant step ==> InStep(r, d) && src.Played(offset, dest[..read])
        invariant src.RecordedIn(old(validFirst), validFirst, offset, offset + length)
        invariant sought ==> WithinReach(r, d, offset + read)
        invariant turns == TurnsLeft(r, d, offset + read)
        decreases length - read, if sought then 0 else 1, turns
      {
        var readpos := offset + read;
        GoodMeans(r, d, readpos, until);
        if InGap(readpos) {
          var gap := validFirst.value - readpos;
          var samples := if gap < length - read then gap else length - read;
          FillSilence(dest, read, read + samples);
          read := read + samples;
          GapStops(r, d, readpos, until);
          break;
        }
        if r.InBuffer(readpos) {
          read := ServeTurn(r, d, offset, length, read, dest, until);
          cut, sought := read, false;
        } else if InFrame(d, readpos) {
          ConvertTurn(r, d, readpos, until);
        } else if InNextFrame(d, readpos) {
          var ok := GrabTurn(r, d, readpos, until);
          if !ok { break; }
        } else {
          if sought { NoSecondSeek(r, d, readpos); }
          ghost var before := validFirst;
          var ok := SeekTurn(r, d, readpos, until);
          RecordedSince(src, old(validFirst), before, validFirst, offset, offset + length, readpos);
          if !ok { break; }
          sought := true;
        }
        turns := TurnsLeft(r, d, offset + read);
        GoodMeans(r, d, offset + read, until);
      }
      Pad(offset, length, read, dest, cut);
    }

    lemma NothingFilled()
      ensures Filled([])
    {
    }

    lemma GoodMeans(r: Resampler, d: Decoder, readpos: int, until: Option<int>)
      ensures Good(r, d, until) ==> src.Tiled() && Serving(r, d, readpos, until)
      ensures Serving(r, d, readpos, until) && !InFrame(d, readpos) ==> Good(r, d, until)
      ensures InStep(r, d) ==> src.ratio.a == 1 && src.ratio.b == 1
    {
    }

    /** Neither wrong labels nor anything to read is below the first valid
        sample. */
    lemma GapStops(r: Resampler, d: Decoder, readpos: int, until: Option<int>)
      requires InGap(readpos)
      ensures Stopped(readpos) && Exhausted(readpos) && (Serving(r, d, readpos, until) ==> Good(r, d, until))
    {
    }

    // ---------------------------------------------- audio_read

    /** Every decoder, published or not, is in a state of its own. */
    ghost predicate Ready()
      reads this, streams
    {
      && Valid() && 0 < len <= |streams|
      && (forall i :: 0 <= i < |streams| ==> streams[i].Sequential(src))
      && (forall i, j :: 0 <= i < j < |streams| ==> streams[i] != streams[j])
    }

    /** Reading at offset needs no seek from this decoder: offset is in the output
        interval from where its frame starts on, twice as long as the frame. */
    ghost predicate Close(d: Decoder, offset: int)
      reads d`cur
    {
      && d.cur.Some? && d.cur.value < |src.frames|
      && (var pos, samples := src.Pos(d.cur.value), src.frames[d.cur.value].samples;
          src.Out(pos) <= offset < src.Out(pos + samples * 2))
    }

    lemma CloseSplits(d: Decoder, offset: int)
      ensures Close(d, offset) <==> InFrame(d, offset) || InNextFrame(d, offset)
    {
      if d.cur.Some? && d.cur.value < |src.frames| {
        var pos, samples := src.Pos(d.cur.value), src.frames[d.cur.value].samples;
        OutMonotone(src.ratio, pos, pos + samples);
        OutMonotone(src.ratio, pos + samples, pos + samples * 2);
      }
    }

    /** The choice of find_stream among the first count decoders: the first that
        needs no seek, else the one not used for the longest time. */
    ghost predicate Picked(offset: int, count: nat, chosen: nat)
      requires count <= |streams|
      reads `streams, streams
    {
      && chosen < count
      && (Close(streams[chosen], offset) ==> forall i :: 0 <= i < chosen ==> !Close(streams[i], offset))
      && (!Close(streams[chosen], offset) ==>
            forall i :: 0 <= i < count ==>
              !Close(streams[i], offset) && streams[chosen].ts.Nanos() <= streams[i].ts.Nanos())
    }

    /** audio.c find_stream. */
    method FindStream(offset: int) returns (chosen: nat)
      requires Ready()
      ensures Picked(offset, len, chosen)
    {
      hide InFrame, InNextFrame, Close, Timespec.Nanos;
      var oldest: Option<nat> := None;
      for i := 0 to len
        invariant oldest.None? <==> i == 0
        invariant oldest.Some? ==> oldest.value < i
        invariant forall j :: 0 <= j < i ==>
                    !Close(streams[j], offset) && streams[oldest.value].ts.Nanos() <= streams[j].ts.Nanos()
      {
        CloseSplits(streams[i], offset);
        if InFrame(streams[i], offset) { return i; }
        if InNextFrame(streams[i], offset) { return i; }
        if oldest.None? || Later(streams[oldest.value].ts, streams[i].ts) { oldest := Some(i); }
      }
      chosen := oldest.value;
    }

    /** audio.c audio_read at time now, finding published decoders ready. What
        is delivered is right with any number of handles and decoders where they
        may be shared, and otherwise with one decoder whose frame the handle's
        buffer holds. chosen is the decoder that was used. */
    method AudioRead(r: Resampler, published: nat, now: Timespec, offset: nat, length: nat, dest: array<Sample>,
                     ghost until: Option<int>)
      returns (ghost cut: nat, ghost chosen: nat)
      requires Ready() && r.Holds(src) && src.Readable() && len <= published <= |streams| && length <= dest.Length
      requires until.Some? ==> offset + length <= until.value
      modifies this`validFirst, this`len, r, streams, dest
      ensures Ready() && r.Holds(src) && len == published
      ensures old(Picked(offset, published, chosen)) && streams[chosen].ts == now
      ensures forall i :: 0 <= i < |streams| && i != chosen ==> unchanged(streams[i])
      ensures dest[length..] == old(dest[length..]) && Filled(dest[..length])
      ensures src.Tiled() && src.Shared(until) && old(r.Labelled(src)) ==>
                r.Labelled(src) && Delivered(src, validFirst, offset, dest[..length], cut)
      ensures |streams| == 1 && old(Good(r, streams[0], until)) ==>
                Good(r, streams[0], until) && Delivered(src, validFirst, offset, dest[..length], cut)
      ensures |streams| == 1 && old(InStep(r, streams[0])) ==>
                InStep(r, streams[0]) && PlayedUpTo(src, validFirst, offset, dest[..length], cut)
      ensures src.RecordedIn(old(validFirst), validFirst, offset, offset + length)
    {
      hide Source.RecordedIn, Source.First, Source.Tiled, Source.Shared, Delivered, Filled, InStep, PlayedUpTo, Close;
      len := published;
      var i := FindStream(offset);
      chosen := i;
      streams[i].ts := now;
      cut := StreamRead(r, streams[i], offset, length, dest, until);
    }
  }

  /** What a read leaves in its buffer: the signal up to cut, then silence,
      because the stream ended or because the read position at cut is before
      the first valid sample. */
  ghost predicate Delivered(src: Track, validFirst: Option<int>, offset: nat, out: seq<Sample>, cut: nat) {
    && cut <= |out| && src.Served(offset, out[..cut])
    && (forall i :: cut <= i < |out| ==> out[i] == SILENCE)
    && (|| cut == |out|
        || offset + cut >= src.OutEdge(|src.frames|)
        || (validFirst.Some? && offset + cut < validFirst.value))
  }

  /** The same at equal rates for a handle alone with its decoder, whatever the
      stamps: samples of frames, each counted from some frame, up to cut. */
  ghost predicate PlayedUpTo(src: Track, validFirst: Option<int>, offset: nat, out: seq<Sample>, cut: nat) {
    && cut <= |out| && src.Played(offset, out[..cut])
    && (forall i :: cut <= i < |out| ==> out[i] == SILENCE)
    && (|| cut == |out|
        || src.Past(offset + cut)
        || (validFirst.Some? && offset + cut < validFirst.value))
  }

  /** What reading at offset sounds like, whoever read what before: the signal
      up to its end, and silence for a request that begins before the first
      frame any seek can reach. */
  ghost function Sound(src: Track, offset: nat, i: nat): Sample {
    if offset < src.OutEdge(src.floor) || offset + i >= src.OutEdge(|src.frames|) then SILENCE
    else src.signal(offset + i)
  }

  /** Every seek below the start time lands on the same frame, or at least none
      of them lands after offset. */
  ghost predicate Settled(src: Track, offset: nat) {
    || FlatBelow(src.land, src.start, src.floor)
    || forall t :: t < src.start ==> src.OutEdge(src.land(t)) <= offset
  }

  /** Then Delivered pins the result down: nothing of the history is left in
      it. */
  lemma DeliveredIsSound(src: Track, validFirst: Option<int>, offset: nat, out: seq<Sample>, cut: nat)
    requires Settled(src, offset) && src.Tiled()
    requires validFirst.Some? ==> src.First(validFirst.value)
    requires Delivered(src, validFirst, offset, out, cut)
    ensures forall i :: 0 <= i < |out| ==> out[i] == Sound(src, offset, i)
  {
    OutEdgesRise(src, src.floor, src.land(src.start - 1));
    if validFirst.Some? { FirstLands(src, validFirst.value); }
    forall i | 0 <= i < |out| ensures out[i] == Sound(src, offset, i) {
      if i < cut { assert out[..cut][i] == src.signal(offset + i); }
    }
  }

  /** Such a frame is where some seek from below the start time lands. */
  lemma FirstLands(src: Track, first: int)
    requires src.First(first)
    ensures exists t :: t < src.start && src.land(t) < |src.frames| && src.OutEdge(src.land(t)) == first
  {
    var sample :| src.Records(sample, first);
    var k: nat :| k < |src.frames| && src.Backwards(sample).EndsOn(k) && sample < src.Pos(k) && src.OutEdge(k) == first;
    var i: nat :| src.Backwards(sample).EndsAt(i, k);
    var t := src.Backwards(sample).Attempt(i);
    assert t < src.start && k == src.land(t);
  }

  /** A call of audio_read: by which handle, when, how many decoders are ready
      by then, and for which samples. */
  datatype Request = Request(handle: nat, now: Timespec, ready: nat, offset: nat, length: nat)

  /** What was read at offset: the signal up to cut, and silence after it, because
      the stream has ended there or some seek from below the start time lands
      later. */
  ghost predicate ReadUpTo(src: Track, offset: nat, out: seq<Sample>, cut: nat) {
    && cut <= |out| && src.Served(offset, out[..cut])
    && (forall i :: cut <= i < |out| ==> out[i] == SILENCE)
    && (|| cut == |out|
        || offset + cut >= src.OutEdge(|src.frames|)
        || src.BeforeFirst(offset + cut))
  }

  /** The request is answered by as many samples as it asked for, which are those of
      the signal up to a cut, and where seeks settle by what Sound says. */
  ghost predicate Answered(src: Track, q: Request, out: seq<Sample>) {
    && |out| == q.length
    && (exists cut: nat :: ReadUpTo(src, q.offset, out, cut))
    && (Settled(src, q.offset) ==> forall i :: 0 <= i < |out| ==> out[i] == Sound(src, q.offset, i))
  }

  lemma DeliveredIsAnswer(v: AudioReader, q: Request, out: seq<Sample>, cut: nat)
    requires v.Valid() && v.src.Tiled() && |out| == q.length && Delivered(v.src, v.validFirst, q.offset, out, cut)
    ensures Answered(v.src, q, out)
  {
    hide Settled;
    assert ReadUpTo(v.src, q.offset, out, cut);
    if Settled(v.src, q.offset) { DeliveredIsSound(v.src, v.validFirst, q.offset, out, cut); }
  }

  /** Any handles, any decoders, any order of requests, at any rates at which a
      frame is a whole number of output samples or less than one: every read
      returns what Sound says. Requests must end before the stream does if its
      last frame is short. */
  method Interleave(a: AudioReader, handles: seq<Resampler>, requests: seq<Request>)
    returns (outs: seq<seq<Sample>>)
    requires a.Ready() && a.src.Tiled() && a.src.Lasting() && a.src.Uniform()
    requires forall h :: 0 <= h < |handles| ==> handles[h].Labelled(a.src)
    requires forall q :: 0 <= q < |requests| ==> requests[q].handle < |handles|
    requires forall q :: 0 <= q < |requests| ==>
               a.src.Even() || requests[q].offset + requests[q].length <= a.src.OutEdge(|a.src.frames|)
    modifies a`validFirst, a`len, a.streams, handles
    ensures |outs| == |requests|
    ensures forall q :: 0 <= q < |requests| ==> Answered(a.src, requests[q], outs[q])
  {
    hide Monotone, Answered, Delivered, Source.Tiled, Source.Lasting, Source.Uniform, Source.Even, AudioReader.Filled,
         AudioReader.Picked, AudioReader.InStep, AudioReader.Close, PlayedUpTo, Source.RecordedIn, Source.First;
    outs := [];
    for q := 0 to |requests|
      invariant a.Ready() && a.streams == old(a.streams)
      invariant forall h :: 0 <= h < |handles| ==> handles[h].Labelled(a.src)
      invariant |outs| == q
      invariant forall p :: 0 <= p < q ==> Answered(a.src, requests[p], outs[p])
    {
      var Request(h, now, ready, offset, length) := requests[q];
      var published := if a.len <= ready <= |a.streams| then ready else a.len;
      var dest := new Sample[length];
      var cut, chosen := a.AudioRead(handles[h], published, now, offset, length, dest, Some(offset + length));
      DeliveredIsAnswer(a, requests[q], dest[..length], cut);
      outs := outs + [dest[..length]];
    }
  }

  /** One handle with one decoder, at any rate and with frames of any size:
      every read returns what Sound says. */
  method Alone(src: Track, requests: seq<Request>) returns (outs: seq<seq<Sample>>)
    requires src.Tiled() && src.Lasting()
    ensures |outs| == |requests|
    ensures forall q :: 0 <= q < |requests| ==> Answered(src, requests[q], outs[q])
  {
    hide Monotone, Answered, Delivered, Source.Tiled, Source.Lasting, AudioReader.Good, AudioReader.Filled,
         AudioReader.Picked, AudioReader.InStep, AudioReader.Close, PlayedUpTo, Source.RecordedIn, Source.First;
    var a := new AudioReader(src, 1);
    var r := new Resampler();
    Fresh(a, r);
    outs := [];
    for q := 0 to |requests|
      invariant a.Ready() && |a.streams| == 1 && a.Good(r, a.streams[0], None) && r.Holds(src)
      invariant fresh(a) && fresh(r) && fresh(a.streams)
      invariant |outs| == q
      invariant forall p :: 0 <= p < q ==> Answered(src, requests[p], outs[p])
    {
      var Request(_, now, _, offset, length) := requests[q];
      var dest := new Sample[length];
      var cut, chosen := a.AudioRead(r, 1, now, offset, length, dest, None);
      DeliveredIsAnswer(a, requests[q], dest[..length], cut);
      outs := outs + [dest[..length]];
    }
  }

  lemma Fresh(a: AudioReader, r: Resampler)
    requires |a.streams| == 1 && a.streams[0].cur == None && r.held == None && r.Labelled(a.src)
    ensures a.src.Tiled() ==> a.Good(r, a.streams[0], None)
    ensures a.src.ratio.a == 1 && a.src.ratio.b == 1 ==> a.InStep(r, a.streams[0])
  {
  }

  /** What a request is answered with whatever the stamps: samples of decoded
      frames, each at its position counted from some frame, up to a cut, and
      silence after it, because the stream has ended there or some seek from below
      the start time lands later. */
  ghost predicate PlayedFor(src: Track, q: Request, out: seq<Sample>) {
    && |out| == q.length
    && exists cut: nat :: PlayedTo(src, q.offset, out, cut)
  }

  ghost predicate PlayedTo(src: Track, offset: nat, out: seq<Sample>, cut: nat) {
    && cut <= |out| && src.Played(offset, out[..cut])
    && (forall i :: cut <= i < |out| ==> out[i] == SILENCE)
    && (cut == |out| || src.Past(offset + cut) || src.BeforeFirst(offset + cut))
  }

  lemma PlayedIsAnswer(v: AudioReader, q: Request, out: seq<Sample>, cut: nat)
    requires v.Valid() && |out| == q.length && PlayedUpTo(v.src, v.validFirst, q.offset, out, cut)
    ensures PlayedFor(v.src, q, out)
  {
    hide Source.Played, Source.Past;
    assert PlayedTo(v.src, q.offset, out, cut);
  }

  /** One handle with one decoder at equal rates, whatever the stamps. */
  method AloneAtEqualRates(src: Track, requests: seq<Request>) returns (outs: seq<seq<Sample>>)
    requires src.ratio.a == 1 && src.ratio.b == 1
    ensures |outs| == |requests|
    ensures forall q :: 0 <= q < |requests| ==> PlayedFor(src, requests[q], outs[q])
  {
    hide Monotone, PlayedFor, Delivered, Source.Tiled, AudioReader.Good, AudioReader.Filled,
         AudioReader.Picked, AudioReader.InStep, AudioReader.Close, PlayedUpTo, Source.RecordedIn, Source.First;
    var a := new AudioReader(src, 1);
    var r := new Resampler();
    Fresh(a, r);
    outs := [];
    for q := 0 to |requests|
      invariant a.Ready() && |a.streams| == 1 && a.InStep(r, a.streams[0]) && r.Holds(src)
      invariant fresh(a) && fresh(r) && fresh(a.streams)
      invariant |outs| == q
      invariant forall p :: 0 <= p < q ==> PlayedFor(src, requests[p], outs[p])
    {
      var Request(_, now, _, offset, length) := requests[q];
      var dest := new Sample[length];
      var cut, chosen := a.AudioRead(r, 1, now, offset, length, dest, None);
      PlayedIsAnswer(a, requests[q], dest[..length], cut);
      outs := outs + [dest[..length]];
    }
  }

  // ------------------------------------------------ where the conditions matter

  /** After a frame [p, p + n) a next one of the same length is predicted. */
  ghost predicate PredictsNext(g: Ratio, p: nat, n: nat)
    requires g.a > 0
  {
    g.Out(p + n) < g.Out(p + n * 2)
  }

  /** The interval predicted for the frame after one of n samples is non-empty
      at every position exactly when n samples last at least one output sample. */
  lemma PredictionIff(g: Ratio, n: nat)
    requires g.a > 0 && g.b > 0
    ensures n * g.b >= g.a <==> forall p: nat :: PredictsNext(g, p, n)
  {
    if n * g.b >= g.a {
      forall p: nat ensures PredictsNext(g, p, n) {
        OutAdvances(g, p + n, n);
      }
    } else {
      var p := EmptyPrediction(g, n);
      assert !PredictsNext(g, p, n);
    }
  }

  /** A frame that ends on a multiple of a ends on a whole output sample, which
      n further samples do not leave. */
  lemma EmptyPrediction(g: Ratio, n: nat) returns (p: nat)
    requires g.a > 0 && n * g.b < g.a
    ensures g.Out(p + n) == g.Out(p + n * 2)
  {
    Product(n, g.a - 1);
    p := n * (g.a - 1);
    assert p + n == n * g.a && p + n * 2 == p + n + n;
    Whole(g, n, p + n);
  }

  lemma Whole(g: Ratio, n: nat, p: int)
    requires g.a > 0 && n * g.b < g.a && p == n * g.a
    ensures g.Out(p) == g.Out(p + n)
  {
    assert p * g.b == n * g.b * g.a;
    assert (p + n) * g.b == n * g.b * g.a + n * g.b;
    Product(n, g.b);
    Floor(p * g.b, g.a, n * g.b);
    Floor((p + n) * g.b, g.a, n * g.b);
  }

  // ---------------------------------------------- frames that are too short

  /** At five to three the frame of one sample falls short of an output sample
      by two thirds. */
  const STUCK: Track := Source(
    x => x, x => x, 0, 1, [Frame(0, 2), Frame(2, 2), Frame(4, 2), Frame(6, 1), Frame(7, 2)],
    t => 0, 0, Ratio(1, 5, 3), x => x)

  /** It yields an output sample all the same, and the position after it, which
      is sought in it, is out of reach. */
  lemma OneOutputSampleIsNotEnough()
    ensures STUCK.Tiled() && Coprime(5, 3) && |STUCK.Converted(3)| == 1
    ensures OutOfReach(STUCK.ratio, STUCK.Pos(3), STUCK.frames[3].samples, 4)
  {
    EuclidStep(1, 5, 3);
    forall d: nat | CommonDivisor(d, 5, 3) ensures d == 1 {
      EuclidStep(d, 5, 3);
      EuclidStep(d, 3, 2);
      EuclidStep(d, 2, 1);
      var q: nat :| d * q == 1;
      if d > 1 { Scale(2, d, q); }
    }
  }

  /** At a position out of reach the turns of stream_read repeat: whatever the
      state, after the seek only another seek is left to do. */
  method SeekRepeats(v: AudioReader, r: Resampler, d: Decoder, readpos: nat, ghost k: nat, ghost until: Option<int>)
    returns (ok: bool)
    requires v.Valid() && d.Sequential(v.src) && r.Holds(v.src) && v.src.Tiled() && !v.InGap(readpos)
    requires k < |v.src.frames| && OutOfReach(v.src.ratio, v.src.Pos(k), v.src.frames[k].samples, readpos)
    requires forall t :: t < v.src.start ==> v.src.land(t) <= k
    modifies v`validFirst, d`cur, d`next, r
    ensures v.Valid() && d.Sequential(v.src) && r.Holds(v.src) && !v.InGap(readpos)
    ensures ok && d.cur == Some(k)
    ensures !r.InBuffer(readpos) && !v.InFrame(d, readpos) && !v.InNextFrame(d, readpos)
  {
    hide Ratio.Out, Ratio.In, Source.Converted;
    ghost var pos, landed;
    ok, pos, landed := v.SeekFrame(r, d, v.src.ratio.In(readpos));
    ghost var sample := v.src.ratio.In(readpos);
    OneFrameHas(v.src, k, sample, if ok then d.cur.value else k);
    ConvertedLength(v.src, k);
  }

  /** Exactly one frame contains a position, and it is before the end. */
  lemma OneFrameHas(src: Track, k: nat, sample: int, c: nat)
    requires src.Tiled() && k < |src.frames| && c < |src.frames| && src.Pos(k) <= sample < src.End(k)
    ensures src.Pos(c) <= sample < src.End(c) <==> c == k
    ensures c <= k ==> src.Pos(c) <= sample
    ensures sample < src.Edge(|src.frames|)
  {
    assert src.Contiguous(k) && src.Contiguous(c);
    EdgesRise(src, k + 1, |src.frames|);
    if c < k {
      EdgesRise(src, c + 1, k);
      EdgesRise(src, c, k);
    } else if c > k {
      EdgesRise(src, k + 1, c);
    }
  }

  /** A track at ratio g whose frames are contiguous and carry n samples each. */
  ghost predicate FramesOf(src: Track, g: Ratio, n: nat) {
    src.ratio == g && src.Tiled() && forall k :: 0 <= k < |src.frames| ==> src.frames[k].samples == n
  }

  /** Reading r on this track does not end: its frame k is where r is sought,
      seeks get that far back, and r is out of reach from there. */
  ghost predicate Sticks(src: Track, k: nat, r: nat) {
    && k < |src.frames| && OutOfReach(src.ratio, src.Pos(k), src.frames[k].samples, r)
    && forall t :: t < src.start ==> src.land(t) <= k
  }

  /** At a reduced ratio stream_read ends on every track of frames of n samples
      exactly when n samples fall short of an output sample by at most one b-th
      of it: then the track is Readable, and else some position sticks. */
  lemma TerminationIff(g: Ratio, n: nat)
    requires g.a > 0 && g.b > 0 && n > 0 && Coprime(g.a, g.b)
    ensures n * g.b + 1 >= g.a ==> forall src: Track :: FramesOf(src, g, n) ==> src.Readable()
    ensures n * g.b + 1 >= g.a <==> forall src: Track, k: nat, r: nat :: FramesOf(src, g, n) ==> !Sticks(src, k, r)
  {
    if n * g.b + 1 >= g.a {
      ReachIff(g, n);
      forall src: Track | FramesOf(src, g, n) ensures src.Readable() {
        forall k: nat | k < |src.frames| ensures src.Lasts(k) {}
      }
      forall src: Track, k: nat, r: nat | FramesOf(src, g, n) && k < |src.frames| ensures !Sticks(src, k, r) {
        assert src.Sized(k);
        assert !OutOfReach(g, src.Pos(k), n, r);
      }
    } else {
      var p, r := StuckAt(g, n);
      OutSmall(g, p, n);
      var src := Source(x => x, x => x, 0, 1, [Frame(p, n)], t => 0, 0, g, x => x);
      assert src.Sized(0);
      assert FramesOf(src, g, n) && Sticks(src, 0, r);
    }
  }

  // ---------------------------------------------- labels that mislead

  /** The label continued from frame j is wrong for frame k + 1 and readpos,
      which frame k + 1 is grabbed for, falls into the buffer under it. */
  ghost predicate Misleading(src: Track, j: nat, k: nat, readpos: int) {
    && src.Tiled() && j < |src.frames| && k + 1 < |src.frames|
    && src.OutEdge(k + 1) <= readpos < src.Out(src.End(k) + src.frames[k].samples)
    && LabelAfter(src, Some(j)) != src.OutEdge(k + 1)
    && LabelAfter(src, Some(j)) <= readpos < LabelAfter(src, Some(j)) + |src.Converted(k + 1)|
  }

  /** The sample that is served: readpos lies as far behind the wrong label as
      this position behind the start of frame k + 1. */
  ghost function Misheard(src: Track, j: nat, k: nat, readpos: int): int
    requires j < |src.frames| && k + 1 < |src.frames|
  {
    src.OutEdge(k + 1) + readpos - LabelAfter(src, Some(j))
  }

  lemma ConvertedSample(src: Track, k: nat, i: nat)
    requires k < |src.frames| && i < |src.Converted(k)|
    ensures src.Converted(k)[i] == src.signal(src.OutEdge(k) + i)
  {
  }

  /** Then a handle whose buffer holds frame j is served the sample of another
      position by a decoder on frame k. */
  method Mislead(v: AudioReader, r: Resampler, d: Decoder, readpos: nat, ghost j: nat, ghost k: nat)
    returns (heard: Sample)
    requires v.Valid() && d.Sequential(v.src) && d.cur == Some(k) && r.Labelled(v.src) && r.held == Some(j)
    requires Misleading(v.src, j, k, readpos) && !v.InGap(readpos) && !r.InBuffer(readpos)
    modifies d`cur, d`next, r
    ensures heard == v.src.signal(Misheard(v.src, j, k, readpos)) && Misheard(v.src, j, k, readpos) != readpos
  {
    hide Ratio.Out, Source.Tiled, Source.Converted, Source.Edge;
    NextLabel(v.src, r.held, r.pos, r.written);
    ConvertedDecodable(v.src, k + 1);
    var ok := v.GrabNextFrame(r, d);
    ConvertedSample(v.src, k + 1, readpos - r.pos);
    var dest := new Sample[1];
    var read := v.ReadBuffer(r, readpos, 1, 0, dest);
    heard := dest[0];
  }

  /** Which happens, for some track of frames of n samples, exactly when they are
      more than one output sample and not a whole number of them. */
  lemma MisleadingIff(g: Ratio, n: nat)
    requires g.a > 0 && g.b > 0 && n > 0 && n * g.b + 1 >= g.a && n * g.b / g.a < 0x7fff_ffff
    ensures n * g.b % g.a == 0 || n * g.b < g.a
            <==> forall src: Track, j: nat, k: nat, r: nat :: FramesOf(src, g, n) ==> !Misleading(src, j, k, r)
  {
    if n * g.b % g.a == 0 || n * g.b < g.a {
      forall src: Track, j: nat, k: nat, r: nat | FramesOf(src, g, n) ensures !Misleading(src, j, k, r) {
        EvenFrames(src, n);
        NeverMisleads(src, j, k, r);
      }
    } else {
      var p, f := UnevenCounts(g, n);
      var src := ThreeFrames(g, n, p);
      MisledBy(src, f);
    }
  }

  lemma NeverMisleads(src: Track, j: nat, k: nat, r: nat)
    requires src.Tiled() && src.Uniform() && src.Even()
    ensures !Misleading(src, j, k, r)
  {
    hide Source.Uniform, Source.Even, Source.Converted, Ratio.Out;
    if Misleading(src, j, k, r) { NextLabelMisses(src, Some(j), k, r, Some(r + 1)); }
  }

  /** The third frame has one output sample more than the second. */
  lemma MisledBy(src: Track, f: nat)
    requires src.Tiled() && |src.frames| == 3 && src.frames[1].samples == src.frames[2].samples && f > 0
    requires src.OutEdge(2) == src.OutEdge(1) + f && src.OutEdge(3) == src.OutEdge(2) + f + 1
    ensures src.OutEdge(2) >= 0 && Misleading(src, 0, 1, src.OutEdge(2))
  {
    hide Ratio.Out, Source.Converted;
    assert src.Sized(2) && src.Contiguous(1) && src.Contiguous(2);
    OutNatural(src.ratio, src.Pos(2));
    ConvertedLength(src, 2);
  }

  lemma EvenFrames(src: Track, n: nat)
    requires src.Tiled() && forall k :: 0 <= k < |src.frames| ==> src.frames[k].samples == n
    requires n * src.ratio.b % src.ratio.a == 0 || n * src.ratio.b < src.ratio.a
    ensures src.Uniform() && src.Even()
  {
    var last := |src.frames| - 1;
    if last > 0 { assert src.Contiguous(last - 1) && src.Contiguous(last); }
  }

  lemma ThreeFrames(g: Ratio, n: nat, p: nat) returns (src: Track)
    requires g.a > 0 && g.b > 0 && n > 0 && n * g.b / g.a < 0x7fff_ffff
    ensures FramesOf(src, g, n) && |src.frames| == 3
    ensures src.Edge(0) == p && src.Edge(1) == p + n && src.Edge(2) == p + 2 * n && src.Edge(3) == p + 3 * n
  {
    var frames := [Frame(p, n), Frame(p + n, n), Frame(p + 2 * n, n)];
    var s := Source(x => x, x => x, 0, 1, frames, t => 0, 0, g, x => x);
    forall k: nat | k < 3 ensures s.Sized(k) { OutMost(g, frames[k].pts, n); }
    src := s;
    assert forall k: nat :: k < 3 ==> src.Contiguous(k);
  }

  /** A run of two handles on two decoders: the first seeks to a position in
      frame j, the second to one in frame k, and then the decoder of the second
      serves readpos to the first. */
  method TwoHandles(src: Track, first: int, second: int, readpos: nat, ghost j: nat, ghost k: nat)
    returns (heard: Sample)
    requires Misleading(src, j, k, readpos) && !(src.OutEdge(j) <= readpos < src.OutEdge(j + 1))
    requires src.Pos(j) <= first < src.End(j) && src.Pos(k) <= second < src.End(k)
    requires forall t :: t < src.start ==> src.land(t) <= j && src.land(t) <= k
    ensures heard == src.signal(Misheard(src, j, k, readpos))
  {
    hide Ratio.Out, Source.Tiled, Source.Converted, Misleading, Misheard;
    TiledWhenMisleading(src, j, k, readpos);
    var v := new AudioReader(src, 2);
    var r := new Resampler();
    var other := new Resampler();
    var ok, pos, landed := v.SeekFrame(r, v.streams[0], first);
    OneFrameHas(src, j, first, if ok then v.streams[0].cur.value else j);
    ok, pos, landed := v.SeekFrame(other, v.streams[1], second);
    OneFrameHas(src, k, second, if ok then v.streams[1].cur.value else k);
    ConvertedDecodable(src, j);
    heard := Mislead(v, r, v.streams[1], readpos, j, k);
  }

  lemma TiledWhenMisleading(src: Track, j: nat, k: nat, readpos: int)
    requires Misleading(src, j, k, readpos)
    ensures src.Tiled() && j < |src.frames| && k + 1 < |src.frames|
  {
  }

  /** Three frames of two samples at three to two. */
  const THREE_TO_TWO: Track := Source(
    x => x, x => x, 0, 1, [Frame(0, 2), Frame(2, 2), Frame(4, 2)], t => 0, 0, Ratio(1, 3, 2), x => x)

  /** Position 2 is asked for, and position 3 is heard. */
  method UnequalRatesMislead() returns (heard: Sample)
    ensures heard == THREE_TO_TWO.signal(3) != THREE_TO_TWO.signal(2)
  {
    heard := TwoHandles(THREE_TO_TWO, 0, 2, 2, 0, 1);
  }

  /** Three frames, the last one shorter. */
  const UNEVEN: Track := Source(
    x => x, x => x, 0, 1, [Frame(0, 4), Frame(4, 4), Frame(8, 2)], t => 0, 0, Ratio(1, 1, 1), x => x)

  /** Position 10, past the end, is asked for, and position 8 is heard. */
  method UnevenFramesMislead() returns (heard: Sample)
    ensures UNEVEN.OutEdge(3) == 10 && heard == UNEVEN.signal(8) != SILENCE
  {
    heard := TwoHandles(UNEVEN, 8, 4, 10, 2, 1);
  }

  /** A shorter last frame misleads, past the end only, exactly when the interval
      predicted for it extends past the end. */
  lemma ShortLastIff(src: Track)
    requires src.Tiled() && src.Uniform() && |src.frames| > 1 && src.Converted(|src.frames| - 1) != []
    ensures src.Even() <==> forall j: nat, k: nat, r: nat :: !Misleading(src, j, k, r)
    ensures forall j: nat, k: nat, r: nat :: Misleading(src, j, k, r) ==> r >= src.OutEdge(|src.frames|)
  {
    hide Source.Uniform, Source.Converted, Ratio.Out;
    var last := |src.frames| - 1;
    var end := src.OutEdge(last + 1);
    forall j: nat, k: nat, r: nat | Misleading(src, j, k, r) ensures !src.Even() && r >= end {
      if src.Even() { NextLabelMisses(src, Some(j), k, r, Some(r + 1)); }
      if r < end { NextLabelMisses(src, Some(j), k, r, Some(end)); }
    }
    if !src.Even() {
      ConvertedDecodable(src, last);
      EdgesRise(src, 0, last);
      assert src.Sized(last);
      assert end >= 0 by { OutEdgesRise(src, 0, last + 1); assert src.Sized(0); OutNatural(src.ratio, src.Pos(0)); }
      assert Misleading(src, last, last - 1, end);
    }
  }
}
