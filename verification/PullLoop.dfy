/** Pulling decoded frames out of a demuxer and a decoder (ffmpeg.c grab). */
module PullLoop {
  import opened Wrappers

  /** A demuxed packet: the stream it belongs to, and its contents. */
  datatype Packet = Packet(streamIndex: int, data: int)

  type Frame = int

  /** A decoder. released is what it gives out after a sequence of packets, full
      what it has given out once it is flushed after them; refuses says whether
      avcodec_send_packet answers EAGAIN to a packet although every released
      frame has been received. */
  datatype Codec = Codec(
    released: seq<Packet> -> seq<Frame>,
    full: seq<Packet> -> seq<Frame>,
    refuses: (seq<Packet>, Packet) -> bool)
  {
    /** Frames once given out stay given out. */
    ghost predicate Valid() {
      && (forall ps, p :: released(ps) <= released(ps + [p]))
      && (forall ps :: released(ps) <= full(ps))
    }
  }

  /** Of the packets still to be read, those of the selected stream. */
  function Selected(stream: int, packets: seq<Packet>): seq<Packet> {
    if packets == [] then []
    else if packets[0].streamIndex == stream then [packets[0]] + Selected(stream, packets[1..])
    else Selected(stream, packets[1..])
  }

  /** All of them are of the stream, and are all there is if no others are
      read. */
  lemma {:induction false} SelectedOnly(stream: int, packets: seq<Packet>)
    ensures forall p :: p in Selected(stream, packets) <==> p in packets && p.streamIndex == stream
    ensures (forall p :: p in packets ==> p.streamIndex == stream) ==> Selected(stream, packets) == packets
  {
    if packets != [] {
      SelectedOnly(stream, packets[1..]);
      assert packets == [packets[0]] + packets[1..];
      assert forall p :: p in packets <==> p == packets[0] || p in packets[1..];
    }
  }

  /** A packet of another stream, wherever it stands, makes no difference, and one
      of the stream is read after those before it and ahead of those behind. */
  lemma {:induction false} SelectedBetween(stream: int, before: seq<Packet>, p: Packet, after: seq<Packet>)
    ensures Selected(stream, before + [p] + after)
            == if p.streamIndex == stream then Selected(stream, before) + [p] + Selected(stream, after)
               else Selected(stream, before + after)
    ensures Selected(stream, before + after) == Selected(stream, before) + Selected(stream, after)
    decreases |before|
  {
    var all := before + [p] + after;
    if before == [] {
      assert all == [p] + after && all[1..] == after && before + after == after;
    } else {
      SelectedBetween(stream, before[1..], p, after);
      assert all[0] == before[0] && all[1..] == before[1..] + [p] + after;
      assert (before + after)[0] == before[0] && (before + after)[1..] == before[1..] + after;
    }
  }

  /** What the decoder will have accepted when all of packets were offered. */
  function Accepted(codec: Codec, sent: seq<Packet>, packets: seq<Packet>): seq<Packet>
    decreases |packets|
  {
    if packets == [] then sent
    else if codec.refuses(sent, packets[0]) then Accepted(codec, sent, packets[1..])
    else Accepted(codec, sent + [packets[0]], packets[1..])
  }

  /** Whatever it refused before, it accepts the last packet unless it refuses it
      after what it accepted. */
  lemma {:induction false} AcceptedLast(codec: Codec, sent: seq<Packet>, packets: seq<Packet>, p: Packet)
    ensures var accepted := Accepted(codec, sent, packets);
            Accepted(codec, sent, packets + [p]) == if codec.refuses(accepted, p) then accepted else accepted + [p]
    decreases |packets|
  {
    if packets == [] {
      assert packets + [p] == [p];
    } else {
      assert (packets + [p])[0] == packets[0] && (packets + [p])[1..] == packets[1..] + [p];
      AcceptedLast(codec, sent, packets[1..], p);
      AcceptedLast(codec, sent + [packets[0]], packets[1..], p);
    }
  }

  lemma {:induction false} ReleasedGrows(codec: Codec, sent: seq<Packet>, packets: seq<Packet>)
    requires codec.Valid()
    ensures codec.released(sent) <= codec.released(Accepted(codec, sent, packets))
    decreases |packets|
  {
    if packets != [] {
      if codec.refuses(sent, packets[0]) {
        ReleasedGrows(codec, sent, packets[1..]);
      } else {
        assert codec.released(sent) <= codec.released(sent + [packets[0]]);
        ReleasedGrows(codec, sent + [packets[0]], packets[1..]);
      }
    }
  }

  datatype Result = Grabbed(frame: Frame) | EndOfFile

  datatype Answer = Ok | Again | Eof

  /** struct ffmpeg_stream. */
  class FfmpegStream {
    const codec: Codec
    const stream: int
    var packets: seq<Packet>  // what av_read_frame has still to return
    var sent: seq<Packet>     // what the decoder has accepted
    var received: nat         // frames received from it
    var flushed: bool         // it was sent the null packet
    var packet: Option<Packet>

    constructor (codec: Codec, stream: int, packets: seq<Packet>)
      requires codec.Valid() && codec.released([]) == []
      ensures Valid() && this.codec == codec && this.stream == stream
      ensures Output() == codec.full(Accepted(codec, [], Selected(stream, packets)))
    {
      this.codec, this.stream, this.packets := codec, stream, packets;
      sent, received, flushed, packet := [], 0, false, None;
      new;
      ReleasedGrows(codec, [], Selected(stream, packets));
    }

    /** What the decoder can give out now. */
    function Available(): seq<Frame>
      reads this
    {
      if flushed then codec.full(sent) else codec.released(sent)
    }

    ghost predicate Valid()
      reads this
    {
      codec.Valid() && received <= |Available()| && (flushed ==> packets == [])
    }

    /** Everything the decoder will give out in the end. */
    ghost function Total(): seq<Frame>
      reads this
    {
      codec.full(if flushed then sent else Accepted(codec, sent, Selected(stream, packets)))
    }

    /** The frames still to come. */
    ghost function Output(): seq<Frame>
      requires Valid()
      reads this
    {
      if received <= |Total()| then Total()[received..] else []
    }

    lemma AvailableIsPrefix()
      requires Valid()
      ensures Available() <= Total() && received <= |Total()|
    {
      ReleasedGrows(codec, sent, Selected(stream, packets));
    }

    /** avcodec_receive_frame. */
    method ReceiveFrame() returns (answer: Answer, frame: Frame)
      requires Valid()
      modifies `received
      ensures Valid()
      ensures answer == Ok <==> old(received) < |Available()|
      ensures answer == Ok ==> received == old(received) + 1 && frame == Available()[old(received)]
      ensures answer != Ok ==> received == old(received) && (answer == Eof <==> flushed)
    {
      frame := 0;
      if received < |Available()| {
        answer, frame := Ok, Available()[received];
        received := received + 1;
      } else {
        answer := if flushed then Eof else Again;
      }
    }

    /** ffmpeg_read_packet: the next packet of the selected stream; false at the
        end of the file. */
    method ReadPacket() returns (ok: bool, ghost skipped: seq<Packet>)
      modifies `packets, `packet
      ensures forall p :: p in skipped ==> p.streamIndex != stream
      ensures ok ==>
                && packet.Some? && packet.value.streamIndex == stream
                && old(packets) == skipped + [packet.value] + packets
      ensures !ok ==> old(packets) == skipped
      ensures ok <==> Selected(stream, old(packets)) != []
      ensures ok ==> packet.Some? && [packet.value] + Selected(stream, packets) == Selected(stream, old(packets))
      ensures ok ==> |packets| < |old(packets)|
      ensures !ok ==> packets == []
    {
      skipped := [];
      while true
        invariant Selected(stream, packets) == Selected(stream, old(packets))
        invariant |packets| <= |old(packets)| && old(packets) == skipped + packets
        invariant forall p :: p in skipped ==> p.streamIndex != stream
        decreases |packets|
      {
        if packets == [] { return false, skipped; }
        Regroup(skipped, packets);
        packet, packets := Some(packets[0]), packets[1..];
        if packet.value.streamIndex != stream {
          skipped := skipped + [packet.value];
          continue;
        }
        return true, skipped;
      }
    }

    /** avcodec_send_packet. */
    method SendPacket() returns (answer: Answer)
      requires packet.Some?
      modifies `sent
      ensures answer == Eof <==> flushed
      ensures answer == Again <==> !flushed && codec.refuses(old(sent), packet.value)
      ensures sent == if answer == Ok then old(sent) + [packet.value] else old(sent)
    {
      if flushed { return Eof; }
      if codec.refuses(sent, packet.value) { return Again; }
      sent := sent + [packet.value];
      return Ok;
    }

    /** avcodec_send_packet of the null packet. */
    method SendNullPacket() returns (answer: Answer)
      modifies `flushed
      ensures flushed && (answer == Eof <==> old(flushed)) && answer != Again
    {
      answer := if flushed then Eof else Ok;
      flushed := true;
    }

    /** ffmpeg.c grab: the next frame of the output, or the end of it. */
    method Grab() returns (result: Result)
      requires Valid()
      modifies this
      ensures Valid()
      ensures old(Output()) == [] ==> result == EndOfFile && Output() == []
      ensures old(Output()) != [] ==> result == Grabbed(old(Output())[0]) && Output() == old(Output())[1..]
    {
      while true
        invariant Valid() && Output() == old(Output())
        decreases |packets|, !flushed
      {
        AvailableIsPrefix();
        var answer, frame := ReceiveFrame();
        if answer == Ok { return Grabbed(frame); }
        var ok, skipped := ReadPacket();
        if !ok {
          answer := SendNullPacket();
          if answer == Eof { return EndOfFile; }
          continue;
        }
        answer := SendPacket();
        if answer == Eof { return EndOfFile; }
      }
    }
  }

  lemma Regroup(before: seq<Packet>, rest: seq<Packet>)
    requires rest != []
    ensures before + rest == before + [rest[0]] + rest[1..]
  {
  }

  /** The decoder takes each packet when it has asked for one. */
  ghost predicate NeverRefuses(codec: Codec, sent: seq<Packet>, packets: seq<Packet>) {
    forall i :: 0 <= i < |packets| ==> !codec.refuses(sent + packets[..i], packets[i])
  }

  lemma {:induction false} AcceptedLength(codec: Codec, sent: seq<Packet>, packets: seq<Packet>)
    ensures |Accepted(codec, sent, packets)| <= |sent| + |packets|
    decreases |packets|
  {
    if packets != [] {
      AcceptedLength(codec, sent, packets[1..]);
      AcceptedLength(codec, sent + [packets[0]], packets[1..]);
    }
  }

  /** No packet is lost exactly when the decoder never refuses one right after
      asking for it; a refused packet is overwritten by the next one. */
  lemma {:induction false} LosslessIff(codec: Codec, sent: seq<Packet>, packets: seq<Packet>)
    ensures Accepted(codec, sent, packets) == sent + packets <==> NeverRefuses(codec, sent, packets)
    decreases |packets|
  {
    if packets == [] {
      assert sent + packets == sent;
    } else {
      var next, rest := sent + [packets[0]], packets[1..];
      assert sent + packets[..0] == sent;
      if codec.refuses(sent, packets[0]) {
        AcceptedLength(codec, sent, rest);
        assert !NeverRefuses(codec, sent, packets);
      } else {
        LosslessIff(codec, next, rest);
        assert next + rest == sent + packets;
        forall i | 0 <= i < |rest| ensures next + rest[..i] == sent + packets[..i + 1] {
        }
        assert NeverRefuses(codec, next, rest) <==> NeverRefuses(codec, sent, packets) by {
          if NeverRefuses(codec, next, rest) {
            forall i | 0 <= i < |packets| ensures !codec.refuses(sent + packets[..i], packets[i]) {
              if i > 0 { assert !codec.refuses(next + rest[..i - 1], rest[i - 1]); }
            }
          }
          if NeverRefuses(codec, sent, packets) {
            forall i | 0 <= i < |rest| ensures !codec.refuses(next + rest[..i], rest[i]) {
              assert !codec.refuses(sent + packets[..i + 1], packets[i + 1]);
            }
          }
        }
      }
    }
  }

  /** Grabbing until the end of the file yields the whole output, in order. */
  method GrabAll(fs: FfmpegStream) returns (frames: seq<Frame>)
    requires fs.Valid()
    modifies fs
    ensures fs.Valid() && fs.Output() == [] && frames == old(fs.Output())
  {
    hide FfmpegStream.Output, FfmpegStream.Valid;
    frames := [];
    while true
      invariant fs.Valid() && frames + fs.Output() == old(fs.Output())
      decreases |fs.Output()|
    {
      var result := fs.Grab();
      match result {
        case EndOfFile => return;
        case Grabbed(frame) => frames := frames + [frame];
      }
    }
  }

  /** A fresh stream over a decoder that never refuses yields exactly the
      decoded frames of the selected stream's packets. */
  method DecodeFile(codec: Codec, stream: int, packets: seq<Packet>) returns (frames: seq<Frame>)
    requires codec.Valid() && codec.released([]) == []
    requires NeverRefuses(codec, [], Selected(stream, packets))
    ensures frames == codec.full(Selected(stream, packets))
  {
    var fs := new FfmpegStream(codec, stream, packets);
    LosslessIff(codec, [], Selected(stream, packets));
    assert [] + Selected(stream, packets) == Selected(stream, packets);
    frames := GrabAll(fs);
  }
}
