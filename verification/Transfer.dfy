/** Writing and reading a frame at the same time: the writer and the reader of
    one direction of the pipe take turns in any order, a chunk at a time. */
module Transfer {
  import opened Wire

  /** What is still to be written, in the pipe, and already read. */
  datatype State = State(toWrite: bytes, inPipe: bytes, got: bytes)

  /** want says how many bytes the reader's pending ReadFile calls still ask for
      after it got some; 0 when the frame is complete. */
  ghost predicate Framed(frame: bytes, want: bytes -> nat) {
    && want(frame) == 0
    && forall n: nat :: n < |frame| ==> 0 < want(frame[..n]) <= |frame| - n
  }

  ghost predicate Write(s: State, s': State, n: nat) {
    && 0 < n <= |s.toWrite|
    && s' == State(s.toWrite[n..], s.inPipe + s.toWrite[..n], s.got)
  }

  ghost predicate Read(s: State, s': State, n: nat, want: bytes -> nat) {
    && 0 < n <= |s.inPipe| && n <= want(s.got)
    && s' == State(s.toWrite, s.inPipe[n..], s.got + s.inPipe[..n])
  }

  ghost predicate Step(s: State, s': State, want: bytes -> nat) {
    exists n: nat :: Write(s, s', n) || Read(s, s', n, want)
  }

  ghost predicate Run(run: seq<State>, frame: bytes, want: bytes -> nat) {
    && run != [] && run[0] == State(frame, [], [])
    && forall i :: 0 <= i < |run| - 1 ==> Step(run[i], run[i + 1], want)
  }

  ghost predicate Inv(s: State, frame: bytes) {
    s.got + s.inPipe + s.toWrite == frame
  }

  ghost function Measure(s: State): nat {
    2 * |s.toWrite| + |s.inPipe|
  }

  lemma StepKeeps(s: State, s': State, frame: bytes, want: bytes -> nat)
    requires Inv(s, frame) && Step(s, s', want)
    ensures Inv(s', frame) && Measure(s') < Measure(s)
  {
    var n: nat :| Write(s, s', n) || Read(s, s', n, want);
    if Write(s, s', n) {
      Regroup(s.got + s.inPipe, s.toWrite, n);
      assert s'.got + s'.inPipe == s.got + s.inPipe + s.toWrite[..n];
    } else {
      Regroup(s.got, s.inPipe, n);
      assert s'.got + s'.inPipe == s.got + s.inPipe;
    }
  }

  lemma Regroup(left: bytes, right: bytes, n: nat)
    requires n <= |right|
    ensures left + right[..n] + right[n..] == left + right
  {
    assert right[..n] + right[n..] == right;
  }

  lemma {:induction false} RunKeeps(run: seq<State>, frame: bytes, want: bytes -> nat)
    requires Run(run, frame, want)
    ensures Inv(run[|run| - 1], frame)
    ensures |run| - 1 + Measure(run[|run| - 1]) <= 2 * |frame|
    decreases |run|
  {
    if |run| > 1 {
      var before := run[..|run| - 1];
      RunKeeps(before, frame, want);
      assert Step(run[|run| - 2], run[|run| - 1], want);
      StepKeeps(before[|before| - 1], run[|run| - 1], frame, want);
    }
  }

  /** However the chunks fall and the two sides alternate: a run is finite, what
      was read is a prefix of the frame, and when neither side can move the
      reader has the whole frame and the pipe is empty. */
  lemma TransferCompletes(run: seq<State>, frame: bytes, want: bytes -> nat)
    requires Framed(frame, want) && Run(run, frame, want)
    ensures |run| <= 2 * |frame| + 1
    ensures var s := run[|run| - 1];
            && s.got <= frame
            && ((forall s' :: !Step(s, s', want)) <==> s == State([], [], frame))
  {
    RunKeeps(run, frame, want);
    var s := run[|run| - 1];
    assert s.got == frame[..|s.got|];
    assert s.inPipe == [] && s.toWrite == [] ==> s.got == frame;
    if s == State([], [], frame) {
      forall s' ensures !Step(s, s', want) {
      }
    } else if s.toWrite != [] {
      assert Write(s, State(s.toWrite[1..], s.inPipe + s.toWrite[..1], s.got), 1);
      assert Step(s, State(s.toWrite[1..], s.inPipe + s.toWrite[..1], s.got), want);
    } else if s.inPipe != [] {
      assert |s.got| < |frame|;
      assert Read(s, State(s.toWrite, s.inPipe[1..], s.got + s.inPipe[..1]), 1, want);
      assert Step(s, State(s.toWrite, s.inPipe[1..], s.got + s.inPipe[..1]), want);
    }
  }

  // ------------------------------------------------ the two frames

  /** client_worker reading a request. */
  function WantRequest(got: bytes): nat {
    if |got| < 4 then 4 - |got|
    else if |got| < 8 then 8 - |got|
    else
      var size := FromLE(got[4..8]);
      if size + 8 <= |got| then 0 else size + 8 - |got|
  }

  /** ipcclient_call reading a reply. */
  function WantReply(got: bytes): nat {
    if |got| < 4 then 4 - |got|
    else
      var size := FromLE(got[..4]);
      if size > 0 then (if size + 4 <= |got| then 0 else size + 4 - |got|)
      else if |got| < 24 then 24 - |got|
      else
        var end := 24 + 2 * FromLE(got[16..24]);
        if end <= |got| then 0 else end - |got|
  }

  lemma RequestFramed(r: Request)
    requires r.Fits()
    ensures Framed(EncodeRequest(r), WantRequest)
  {
    hide LE, FromLE, Range;
    var frame := EncodeRequest(r);
    Ranges();
    LERoundTrip(|r.payload|, 4);
    assert frame[4..8] == LE(|r.payload|, 4);
    forall n: nat | 8 <= n <= |frame| ensures FromLE(frame[..n][4..8]) == |r.payload| {
      assert frame[..n][4..8] == frame[4..8];
    }
    assert frame[..|frame|] == frame;
  }

  lemma ReplyFramed(r: Reply)
    requires r.Fits() && r != Success([])
    ensures Framed(EncodeReply(r), WantReply)
  {
    hide LE, FromLE, Range;
    var frame := EncodeReply(r);
    Ranges();
    var size := if r.Success? then |r.payload| else 0;
    LERoundTrip(size, 4);
    assert frame[..4] == LE(size, 4);
    forall n: nat | 4 <= n <= |frame| ensures FromLE(frame[..n][..4]) == size {
      assert frame[..n][..4] == frame[..4];
    }
    if r.Error? {
      LERoundTrip(|r.msg|, 8);
      assert frame[4..] == EncodeError(r.typ, r.code, r.msg);
      assert frame[16..24] == frame[4..][12..20] == LE(|r.msg|, 8);
      forall n: nat | 24 <= n <= |frame| ensures FromLE(frame[..n][16..24]) == |r.msg| {
        assert frame[..n][16..24] == frame[16..24];
      }
    }
    assert frame[..|frame|] == frame;
  }
}
