# Verification model of the FFmpeg video reader plugin

The plugin reads video and audio files for a host program. It keeps several
decoders of a file open, guesses which of them is closest to a requested
position, and may run the reader in a process of its own, connected by a pipe
and a shared memory object. This project models its stateful parts in Dafny and
proves what a user of each part relies on. `dafny verify dfyconfig.toml` checks
all of it.

| module | source | subject |
|---|---|---|
| `Rescale`, `Timestamps` | `src/video.c`, `src/audio.c` | rounding; frame numbers and sample positions against timestamps |
| `Seeking` | `src/video.c`, `src/audio.c` | the loop that seeks back one second at a time |
| `Resampling` | `src/resampler.h`, `src/audio.c` | the reduced rate ratio and floored positions |
| `Audio` | `src/audio.c` | random-access audio over sequential decoders |
| `Video` | `src/video.c` | random-access video over sequential decoders |
| `Wire`, `Pipe`, `Transfer` | `src/ipcclient.c`, `src/ipcserver.c`, `src/ipccommon.c` | the byte-pipe RPC |
| `RequestContext` | `src/ipcserver.c` | the reference-counted context of a request |
| `Bridge` | `src/bridgeclient.c`, `src/bridgeserver.c` | handle table, shared memory, crash and restart |
| `StreamMap` | `src/stream.c` | shared streams, cache and pool |
| `PullLoop`, `DecoderList` | `src/ffmpeg.c` | pulling frames; the list of preferred decoders |
| `AudioIndex` | `src/audioidx.c` | the index a background thread builds |
| `Opener` | `src/audio.c`, `src/video.c` | opening further decoders in the background |

`Wrappers` holds values that all of them share.

## What the environment is taken to be

- A media file is a finite list of frames. A seek lands on the frame given by an
  arbitrary monotone landing function of the seek target, or past the last frame
  possibly on the end of the stream, and a grab moves on by one frame. Results that mention no history (`Audio.Interleave`,
  `Audio.Alone`, `Video.Replay`) are about requests that no seek from below the
  start time lands after, or else about files where all those seeks land on one
  frame (`Audio.Settled`, `Video.ShownAlone`).
- Converting frame k yields the samples of an ideal output signal between the
  floored edges of the frame. With different rates this idealises
  `swr_convert`, which keeps a filter history.
- An audio decoder without a frame is one whose position interval is empty. A
  video decoder without one has the timestamp `AV_NOPTS_VALUE`, as in the code.
  The differences the code takes of it overflow: C leaves that undefined, and
  here they wrap around, as 64-bit subtraction does on the machines the plugin
  runs on. `sws_scale` is taken to leave the picture alone when it is given a
  frame without data.
- The timestamps of the frames asked for are assumed to fit an `int64_t`.
- Audio positions come from an arbitrary function of the timestamp.
  `AudioReader.StreamRead` terminates at equal rates whatever that function is, and
  for a handle alone with its decoder it delivers samples of decoded frames, each at
  its position counted from an earlier frame (`Audio.AloneAtEqualRates`);
  what it delivers is right where frames are contiguous (`Source.Tiled`), for
  which `Audio.StampedFrameStarts` supplies the conversion of lines 54-64.
- Other integers are unbounded, except on the wire, where widths and signs are as
  in the code.
- A clock reading has fewer than a thousand million nanoseconds besides its seconds;
  which of two is later is stated by their sum (`Timespec.Nanos`).
- `ReadFile` and `WriteFile` move any positive number of bytes. Clocks, crashes,
  allocation of addresses, proposed object names, and the outcome of each call
  that can fail are parameters, so the results hold for all of them.
- The thread protocols (`RequestContext`, `Opener`, `AudioIndex`, `Transfer`)
  are state machines whose steps are what one thread does between two points
  where another may get in. Their results are about every interleaving.

## What was found

Where a natural claim is false of the code, the exact condition is proved.

- `stream_read` terminates on every track of frames of n samples if and only if
  n samples fall short of an output sample by at most one b-th of it, at the
  reduced ratio a : b (`n * b + 1 >= a`, `Audio.TerminationIff`). A shorter frame
  makes it seek for ever (`Audio.SeekRepeats`), even if it yields an output sample
  (`Audio.OneOutputSampleIsNotEnough`, at 5 : 3).
- A resampler that last held a different frame gets a wrong label from
  `grab_next_frame`. The label misses the position being read, and the next turn
  corrects it, if and only if a frame is a whole number of output samples or less
  than one (`Audio.MisleadingIff`); otherwise a decoder shared by two handles
  serves a wrong sample (`Audio.Mislead`, and from a new reader at
  3 : 2 `Audio.UnequalRatesMislead`). A shorter last frame does harm past the end only,
  and none exactly when the interval predicted for it ends there
  (`Audio.ShortLastIff`, and from a new reader `Audio.UnevenFramesMislead`).
- A read that starts before the first decodable sample is silent to its end,
  because the loop stops after filling the gap (`Audio.Sound`).
- Frames shorter than a tick share timestamps and are confused
  (`Timestamps.DistinctStampsIff`).
- The seek loop does not end when one second is less than one tick, unless it
  never has to step back (`Seeking.RetryStopsIff`).
- "Same group of pictures" takes the last matching decoder, not the nearest one
  (`Video.VideoReader.FindSameGop`).
- A decoder that seeks past the end keeps its group of pictures but no frame,
  exactly when it had one or a key frame went by. It is then taken for an in-range
  frame, and success is reported with the caller's picture left as it was; since the
  decoder keeps its group, this repeats for as long as frames of that group are
  asked for (`Video.VideoReader.Read`, and from a new reader
  `Video.StaleGroupIsChosen`). Only frames stamped below zero give a blank picture
  instead, which clears the group (`Video.SkipFromNowhere`). Before any request past
  the end nothing of the kind happens (`Video.Replay`).
- A success without payload is read as an error by the client
  (`Wire.ReplyRoundTripIff`).
- A cancel makes a worker leave its wait if and only if neither a handler call
  nor a finish comes between, which reset and overwrite it
  (`RequestContext.CancelHeededIff`). The worker serves at most one more request
  all the same (`RequestContext.OneCallAfterClosing`).
- The shutdown may signal a client that has been freed: nothing keeps a worker
  whose pipe breaks from freeing it between the look at the map and the signal
  (`RequestContext.StraySignal`; `RequestContext.PickedMeetsPresentIff` says
  exactly when it does not). The same goes for its later steps. It is sure to find
  client and context when it unlocks them exactly when the worker needed that very
  lock (`RequestContext.UnlockSafeIff`), and never sure to find the client when it
  joins its thread (`RequestContext.JoinNeverSafe`); an idle client at shutdown may
  miss both (`RequestContext.IdleClientIsGone`).
- The last signal of the audio indexer wakes one reader: readers that wait are
  all released if and only if at most one of them is asleep then
  (`AudioIndex.LastSignalIff`; `AudioIndex.OneSleepsOn` has two). Nothing in the
  repository calls `audioidx_get`, so no reader waits at present.
- `call_read` remembers the name of a mapping object it failed to open, so reads
  fail for as long as the reader uses that name (`Bridge.Client.Read`). Wrong
  bytes are never returned.
- Opening a file leaks a handle in the reader exactly when a local step fails
  and the close on the way out fails too (`Bridge.Client.Open`).
- A packet the decoder refuses is lost (`PullLoop.LosslessIff`).
- A file whose identity is all zero is confused with a blank pool slot, so an
  idle stream of it is found only when no slot is blank
  (`StreamMap.PooledFound`).

## Model

| member | source | states |
|---|---|---|
| `Wrappers.Later` | src/stream.c:28-33 | a reading is later than another if and only if its seconds and nanoseconds together are more nanoseconds |
| `Wrappers.Minus` | src/video.c:449-449 | the difference as a 64-bit integer: exact when it fits, else off by a multiple of 2^64 |
| `Timestamps.ToPts` | src/video.c:57-60 | the timestamp is off the exact time of the unit by at most half a tick |
| `Timestamps.FromPts` | src/audio.c:54-64 | the unit is off the exact position of the timestamp by at most half a unit |
| `Rescale.Near` | src/video.c:57-60 | the result is the quotient rounded to nearest, halves away from zero |
| `Rescale.Up` | src/video.c:217-220 | the result is the least integer not below the quotient |
| `Rescale.IsNearMonotone` | src/audio.c:54-64 | rounding to nearest is monotone and has one solution |
| `Timestamps.SkipReaches` | src/video.c:210-252 | with at least one tick per frame, stamps strictly increase and the rounded-up skip count between two frames is never less than their distance |
| `Timestamps.RoundTripError` | src/audio.c:54-64 | a position sent to its timestamp and back is off by at most (samples per tick + 1)/2, for every start time and rate |
| `Timestamps.RoundTripExact` | src/audio.c:54-64 | it comes back unchanged when a tick is no longer than a sample |
| `Timestamps.RoundTripIdentityIff` | src/audio.c:54-64 | it comes back unchanged at every position if and only if a tick is no longer than a sample |
| `Timestamps.DistinctStampsIff` | src/video.c:57-60 | all frames have stamps of their own if and only if a frame lasts at least one tick |
| `Timestamps.RisingStampsSpread` | src/video.c:57-60 | if neighbouring frames never share a stamp, k frames span at least k ticks |
| `Seeking.RetryStopsIff` | src/audio.c:143-170 | for every monotone landing function the retry loop ends if and only if one second is at least one tick, or the target is below the start, or the first landing is early enough |
| `Seeking.Descend` | src/video.c:139-200 | from below the start time the loop ends for every monotone landing function |
| `Seeking.EndsOnce` | src/audio.c:143-170 | the frame the loop ends on is determined by the landing function and the target |
| `Resampling.Gcd` | src/resampler.h:13-26 | the divisors of the result are exactly the common divisors of both rates, the two factors times it give the rates back, and the factors have no divisor in common |
| `Resampling.EuclidStep` | src/resampler.h:20-24 | a turn of the loop keeps the set of common divisors |
| `Resampling.OutMonotone` | src/audio.c:372-374 | later source positions never have earlier output positions |
| `Resampling.OutAdvances` | src/audio.c:383-384 | source samples that last one output sample move the output position on by at least one |
| `Resampling.OutBracket` | src/audio.c:393-394 | an output position whose source position lies in an interval is inside the floored output interval or exactly the first position after it |
| `Resampling.OutPassed` | src/audio.c:383-385 | samples that fall short of an output sample by at most one b-th of it reach beyond any position sought before them |
| `Resampling.ReachIff` | src/audio.c:370-394 | at a reduced ratio no position is out of reach after its seek if and only if frames fall short of an output sample by at most one b-th of it |
| `Resampling.Bezout` | src/resampler.h:13-26 | reduced factors combine to 1, which is why a stuck position exists below that bound |
| `Resampling.LabelIff` | src/audio.c:263-264 | continued labels are right or miss the frame, for every held frame, decoder and position, if and only if a frame is a whole number of output samples or less than one |
| `Audio.StampedFrameStarts` | src/audio.c:54-64 | a frame stamped for sample p is taken to start at p |
| `Audio.EdgesRise` | src/audio.c:197-199 | contiguous frames start at strictly increasing positions |
| `Audio.CountedTiled` | src/audio.c:197-199 | counting samples from any frame gives the edges of contiguous frames |
| `Audio.OutEdgesRise` | src/audio.c:371-374 | so do their floored output positions, weakly |
| `Audio.ConvertedLength` | src/audio.c:294-303 | a converted frame has as many samples as its floored start and end are apart |
| `Audio.NextLasts` | src/audio.c:370-385 | a position sought before the end of a frame is below the end of the next one, real or predicted |
| `Audio.ConvertedDecodable` | src/audio.c:294-303 | the samples of a converted frame lie between the first frame a seek reaches and the end |
| `Audio.NextLabel` | src/audio.c:263-264 | position plus count of a correctly labelled buffer is the output edge after the frame it holds |
| `Audio.NextLabelMisses` | src/audio.c:247-275 | where decoders may be shared the label continued from whatever frame the buffer held is right for the new frame, or the position the frame was grabbed for does not fall into the buffer and is in the frame |
| `Audio.SoughtReaches` | src/audio.c:393-394 | after a seek the output position is not before the landed frame, or below the end of the first valid one |
| `Audio.Resampler.Convert` | src/audio.c:311-321 | afterwards the buffer holds the frame converted |
| `Audio.Decoder.SeekTo` | src/ffmpeg.c:488-496 | the next grab decodes the landing frame |
| `Audio.Decoder.Grab` | src/ffmpeg.c:561-561 | the next frame becomes current, and at the end there is none |
| `Audio.AudioReader.constructor` | src/audio.c:529-576 | a new reader is ready, with one published decoder |
| `Audio.AudioReader.Rewind` | src/audio.c:143-170 | the loop terminates on the one frame that the seek loop determines, and fails exactly when the first seek lands on the end of the stream; the frame is at or before the sample, or its output position has been recorded as the first valid one |
| `Audio.AudioReader.Seek` | src/audio.c:110-229 | whatever the stamps, the position returned is that of the landed frame plus the samples of every frame decoded from there on; it ends with the sample less than a frame after it, or on the recorded first valid frame, or at the end of the stream, which it meets only if the seek lands there or all samples from the landed frame on are before the sample; for contiguous frames it ends on the frame that contains the sample, failing only past the end |
| `Audio.AudioReader.SeekFrame` | src/audio.c:277-305 | afterwards the buffer holds the decoder's frame under the position counted from the landed frame, which is its own for contiguous frames; a failure leaves buffer and record alone |
| `Audio.AudioReader.GrabNextFrame` | src/audio.c:247-275 | the buffer holds the next frame under a label that continues the old one, whatever frame that belonged to |
| `Audio.AudioReader.ConvertFrame` | src/audio.c:307-323 | the buffer holds the decoder's frame under its right position |
| `Audio.AudioReader.ReadBuffer` | src/audio.c:233-245 | copies the samples at the read position until the request or the buffer is used up, and writes nothing else |
| `Audio.AudioReader.NoSecondSeek` | src/audio.c:350-398 | a position within reach after a seek is in the gap, the buffer, the frame or the predicted next frame, so no seek follows a seek |
| `Audio.AudioReader.ServeTurn` | src/audio.c:361-368 | progress is made with decoded samples only, and what is served from a buffer that may be served from is the signal at its absolute position |
| `Audio.AudioReader.PlayedOn` | src/audio.c:233-245 | at equal rates and for all stamps, what comes out of the buffer of a handle alone with its decoder are samples of the frame it holds, as far into it as the read position is behind the counted start |
| `Audio.AudioReader.ConvertTurn` | src/audio.c:370-381 | the state is right again and the position is served next |
| `Audio.AudioReader.CountedOn` | src/audio.c:263-264 | the label continued to the next frame is counted from the same frame |
| `Audio.AudioReader.GrabTurn` | src/audio.c:382-391 | fewer turns are left, and the buffer may be served from or is converted again first |
| `Audio.AudioReader.SeekTurn` | src/audio.c:393-397 | the state is right and the position within reach, or nothing can be read there |
| `Audio.AudioReader.FillSilence` | src/audio.c:354-359 | silence in the range, nothing else changed |
| `Audio.AudioReader.Pad` | src/audio.c:408-420 | what was not read is silence, for one of the two permitted reasons |
| `Audio.AudioReader.StreamRead` | src/audio.c:325-421 | at equal rates for all stamps, and at any rate for contiguous frames that are not too short: it terminates and fills exactly length samples, each decoded or silent, and nothing behind them; from a good state it delivers the signal up to a cut and silence after it, and leaves a good state; at equal rates a handle alone with its decoder gets, for all stamps, sample x - p of a decoded frame at position x, where p is the position of that frame counted from itself or an earlier one; what is recorded as first valid comes from a seek for a position of the request |
| `Audio.AudioReader.CloseSplits` | src/audio.c:470-485 | a position needs no seek if and only if it is in the output interval of the frame or of the predicted next one |
| `Audio.AudioReader.FindStream` | src/audio.c:455-493 | the first published decoder that needs no seek; if none, one whose last use has the least time |
| `Audio.AudioReader.AudioRead` | src/audio.c:495-504 | uses the decoder that find_stream chooses, dates it and touches no other; right delivery with any number of handles and decoders where decoders may be shared, at any rate for one of each, and at equal rates for one of each whatever the stamps |
| `Audio.DeliveredIsSound` | src/audio.c:350-421 | what is delivered does not depend on what was read before, once seeks settle |
| `Audio.FirstLands` | src/audio.c:153-163 | what is recorded as first valid is where some seek from below the start time lands |
| `Audio.DeliveredIsAnswer` | src/audio.c:350-421 | what is delivered is the signal up to a cut and silence after it, because the stream ends there or a frame that a seek from below the start time lands on starts later; where seeks settle it is what Sound says |
| `Audio.Interleave` | src/audio.c:325-504 | any requests by any handles over any decoders, at every ratio at which a frame is a whole number of output samples or less than one, the last frame being shorter or not: each is answered in full by the signal at its absolute positions up to a cut, and by silence after it for one of the two permitted reasons; where seeks settle every sample is that of its position, or silence past the end or for a request that begins before the first decodable sample |
| `Audio.Alone` | src/audio.c:325-504 | the same for one handle and one decoder at every ratio and with frames of any sizes that are not too short |
| `Audio.AloneAtEqualRates` | src/audio.c:325-504 | any requests by one handle over one decoder at equal rates, whatever the stamps: each sample at position x is sample x - p of a decoded frame, where p is the position of that frame counted from itself or an earlier one, up to a cut, and silence after it because the end, so counted, is reached or a first frame was recorded |
| `Audio.PredictionIff` | src/audio.c:383-385 | the predicted next interval is non-empty at every position, sought or not, if and only if a frame lasts at least one output sample |
| `Audio.OneOutputSampleIsNotEnough` | src/audio.c:370-394 | at 5 : 3 a frame that yields an output sample and a position sought in it that is out of reach |
| `Audio.SeekRepeats` | src/audio.c:350-398 | at a position out of reach, whatever the state, a seek leaves only another seek to do |
| `Audio.TerminationIff` | src/audio.c:350-398 | at a reduced ratio stream_read terminates on every track of frames of n samples if and only if they fall short of an output sample by at most one b-th of it; otherwise some position on some track is out of reach |
| `Audio.Mislead` | src/audio.c:247-275 | where the wrong label covers the position, the sample of another position is heard |
| `Audio.MisleadingIff` | src/audio.c:263-264 | no track of frames of n samples has such a position if and only if a frame is a whole number of output samples or less than one |
| `Audio.TwoHandles` | src/audio.c:325-504 | two seeks by two handles on two decoders reach that state |
| `Audio.UnequalRatesMislead` | src/audio.c:263-264 | calls on a new reader at 3 : 2 in which position 2 is asked for and position 3 is heard |
| `Audio.ShortLastIff` | src/audio.c:383-385 | a shorter last frame misleads past the end only, and does so if and only if the interval predicted for it extends past the end |
| `Audio.UnevenFramesMislead` | src/audio.c:263-264 | calls on a new reader in which a position past the end is asked for and position 8 is heard |
| `Video.StampsOrder` | src/video.c:57-60 | stamps order frames, are distinct, and the skip count reaches from one to a later one |
| `Video.StampFromStart` | src/video.c:57-60 | no frame is stamped before the start time |
| `Video.SkipFromNowhere` | src/video.c:449-452 | from a decoder without a frame the skip loop is allowed a grab if and only if the target stamp is negative |
| `Video.FramesApart` | src/video.c:449-452 | differences between timestamps of frames do not wrap |
| `Video.VideoReader.constructor` | src/video.c:585-640 | a new reader is ready, with one published decoder and no group of pictures |
| `Video.VideoReader.SeekAndGrab` | src/video.c:156-161 | the landing frame becomes current, or none when the seek lands on the end |
| `Video.VideoReader.Grab` | src/ffmpeg.c:561-561 | the next frame becomes current, or none at the end |
| `Video.VideoReader.Rewind` | src/video.c:139-200 | terminates on the one frame that the seek loop determines, or at the end exactly when the first seek lands there; a frame later than the target is recorded as the first valid one, and nothing else is |
| `Video.VideoReader.SkipTo` | src/video.c:449-471 | from a frame the bounded skip loop reaches the wanted one exactly, or stays on a later one, or meets the end just when there is no such frame; from none it meets the end just when the target is negative, and else does nothing; the group recorded is that of the last key frame gone by |
| `Video.VideoReader.Seek` | src/video.c:122-271 | the decoder ends on the wanted frame or the recorded first valid one; the end is met if and only if the frame is out of range, and the group is kept unless a key frame went by |
| `Video.VideoReader.FindStream` | src/video.c:307-410 | seeks if and only if no published decoder shows the frame, is near before it, or shares its group of pictures; a decoder that shows it comes first, then the nearest one, then the last of the group, with a frame or without; to seek, one whose last use has the least time |
| `Video.VideoReader.FindNear` | src/video.c:324-358 | the first decoder that shows the frame, else the nearest before it if that is less than 15 frames away, else none |
| `Video.GroupRecorded` | src/video.c:210-238 | a group is on record if and only if there was one before or a key frame went by |
| `Video.GroupIsLastKey` | src/video.c:210-238 | the group on record after frames have gone by is that of the last key frame among them, or the old one if there was none |
| `Video.VideoReader.Show` | src/video.c:434-479 | what the chosen decoder shows, and exactly when the picture is blank or left as it was and the decoder is left without a frame but with a group |
| `Video.VideoReader.ScaleInto` | src/video.c:479-479 | the picture of the decoded frame, and without one the picture is left as it was |
| `Video.VideoReader.FindSameGop` | src/video.c:361-391 | the last decoder of the group at or before the target, if any, regardless of distance and of whether it has a frame; for the one target, -1, at which the wrapped distance is just INT64_MAX, one without a frame does not replace an earlier one |
| `Video.VideoReader.FindOldest` | src/video.c:394-409 | no decoder's last use has less time |
| `Video.VideoReader.Read` | src/video.c:412-485 | the picture is left as it was if and only if the decoder taken without seeking had met the end in a seek and the stamp is not negative, and then the decoder keeps its group; it is blank if and only if the stamp is negative and such a decoder was taken, or no such decoder was and the frame is out of range; otherwise frame n is delivered, or the first valid frame if n is before it; the only other way for the decoder to be left in that state is to seek past the end having had a group or passed a key frame; the decoder is the one find_stream chooses, it is dated and no other is touched, and its group is that of the last key frame gone by |
| `Video.Replay` | src/video.c:412-485 | any sequence of requests: each one that no out-of-range request precedes shows the frame asked for if every seek from below the start lands no later, or what it would show on its own; any other is either that, or leaves the picture as it was, or, with a negative stamp, is blank |
| `Video.StaleGroupIsChosen` | src/video.c:361-391 | calls on a new reader: frame 0, a frame past the end, frame 1, frame 1 show 0, blank, and twice nothing new |
| `Wire.LERoundTrip` | src/ipcclient.c:150-161 | an integer of a width is read as it was written |
| `Wire.LE4` | src/ipcclient.c:150-159 | four bytes, low byte first |
| `Wire.Extend` | src/ipcserver.c:103-106 | a signed field fits its width and is read back with its sign |
| `Wire.WideAt` | src/ipcserver.c:107-109 | two bytes a character, low byte first |
| `Wire.WideRoundTrip` | src/ipcserver.c:107-109 | message text is read as it was written |
| `Wire.RequestLayout` | src/ipcclient.c:150-159 | byte by byte: event, size of the payload, payload, integers low byte first |
| `Wire.ReplyLayout` | src/ipcserver.c:95-113 | byte by byte: size and payload, or zero, type, code with its sign in eight bytes, length and message, integers and characters low byte first |
| `Wire.ErrorRoundTrip` | src/ipcserver.c:95-113 | the client reads exactly the type, code and message of the error, and no byte more |
| `Wire.SuccessRoundTrip` | src/ipcserver.c:232-241 | the client reads exactly the payload, but takes an empty one for the start of an error |
| `Wire.ReplyRoundTripIff` | src/ipcclient.c:160-207 | a reply is understood as it was meant if and only if it is not a success without payload |
| `Wire.RequestRoundTrip` | src/ipcserver.c:168-197 | the server reads exactly the event and payload sent, and no byte more |
| `Transfer.StepKeeps` | src/ipccommon.c:3-21 | read, in the pipe, and unwritten bytes together stay the frame, and less is left to do |
| `Transfer.RunKeeps` | src/ipccommon.c:3-21 | over every interleaving of chunked writes and reads |
| `Transfer.TransferCompletes` | src/ipccommon.c:3-21 | every interleaving is finite, what was read is a prefix of the frame, and it can go no further if and only if the whole frame was read and the pipe is empty |
| `Transfer.RequestFramed` | src/ipcserver.c:168-197 | the server asks for bytes of a request until it is complete, and never for more |
| `Transfer.ReplyFramed` | src/ipcclient.c:160-207 | the client likewise for a reply |
| `Pipe.Channel.ReadFile` | src/ipccommon.c:6-6 | takes some bytes off the front, waiting for the other side to write if there are none |
| `Pipe.Channel.WriteFile` | src/ipccommon.c:16-16 | appends some of the bytes offered |
| `Pipe.IpcRead` | src/ipccommon.c:3-11 | for every chunking, exactly sz bytes of what was written or is written meanwhile move into the buffer, and the rest stays to be read |
| `Pipe.IpcWrite` | src/ipccommon.c:13-21 | for every chunking, exactly sz bytes of the buffer are appended |
| `Pipe.Grow` | src/ipcserver.c:65-80 | a reused buffer never shrinks and keeps its contents |
| `Pipe.Server.GrowBuffer` | src/ipcserver.c:65-80 | the reported size never exceeds the allocation |
| `Pipe.Server.ReceiveRequest` | src/ipcserver.c:168-197 | takes exactly one request off the pipe |
| `Pipe.Server.SendReply` | src/ipcserver.c:216-242 | appends exactly the encoded reply or error |
| `Pipe.Server.ServeOne` | src/ipcserver.c:163-243 | the handler is called once with the request sent, its reply is what is written, and the request pipe is drained |
| `Pipe.Client.Send` | src/ipcclient.c:150-159 | appends exactly the encoded request |
| `Pipe.Client.ReceiveError` | src/ipcclient.c:166-195 | takes exactly one error off the pipe |
| `Pipe.Client.Receive` | src/ipcclient.c:160-207 | takes exactly one reply off the pipe |
| `Pipe.Client.Call` | src/ipcclient.c:144-210 | with an event and a payload a call is a direct call of the handler, and both directions are drained; with either missing it is refused before anything is sent |
| `Pipe.DirectExtends` | src/ipcserver.c:163-243 | direct calls can be made one after the other |
| `Pipe.Converse` | src/ipcclient.c:144-210 | a conversation of any length over any chunking is the sequence of direct calls |
| `RequestContext.StepKeeps` | src/ipcserver.c:42-89 | every step of every thread keeps the invariant of the context |
| `RequestContext.RunKeeps` | src/ipcserver.c:163-243 | so does every interleaving |
| `RequestContext.FreedOnce` | src/ipcserver.c:42-58 | the count is the worker while it holds the context plus the handlers that have not let go, and the context is freed once, exactly when all have |
| `RequestContext.NoStepAfterFree` | src/ipcserver.c:46-58 | neither the worker nor a handler can use a freed context |
| `RequestContext.ReplyAfterFinish` | src/ipcserver.c:199-242 | a reply is sent only after its own request was finished, nobody else uses the buffer meanwhile, and its size is within the allocation |
| `RequestContext.OutcomeStands` | src/ipcserver.c:82-89 | what a handler finished with stands until the reply, so that the reply is an error if and only if the handler failed |
| `RequestContext.WaitEnds` | src/ipcserver.c:206-210 | a waiting worker can go on if and only if the shutdown does not hold the lock and its handler has finished or it was cancelled; the shutdown holds it only between signal and unlocking |
| `RequestContext.History` | src/ipcserver.c:245-264 | how far the worker has got is what has happened: set up, out of the map, context given up, client freed |
| `RequestContext.PickedMeetsPresentIff` | src/ipcserver.c:432-442 | whenever the shutdown uses a client picked from the map, the client is there if and only if the worker has not freed it since, and the context if and only if, besides, the worker has made it and has not given it up with no handler holding it |
| `RequestContext.StraySignal` | src/ipcserver.c:252-263 | an interleaving in which a freed client is signalled |
| `RequestContext.IdleClientIsGone` | src/ipcserver.c:438-440 | an interleaving in which an idle client is freed before the shutdown unlocks and joins it |
| `RequestContext.UnlockSafeIff` | src/ipcserver.c:436-439 | client and context are sure to be there when the shutdown unlocks if and only if the worker was about to call its handler or in its wait when it was signalled |
| `RequestContext.JoinNeverSafe` | src/ipcserver.c:440-440 | however things stand after the unlocking, the worker can free its client before the shutdown joins it |
| `RequestContext.CancelHeededIff` | src/ipcserver.c:199-214 | a cancel makes the next wait end in leaving if and only if neither a handler call nor a finish comes between |
| `RequestContext.CancelLostToCall` | src/ipcserver.c:201-207 | an interleaving after which a cancelled worker waits for its handler |
| `RequestContext.CancelLostToFinish` | src/ipcserver.c:82-89 | an interleaving after which a cancelled worker goes on to reply |
| `RequestContext.OneCallAfterClosing` | src/ipcserver.c:163-166 | once closing is set at most one more handler is called, whatever becomes of the cancel |
| `Bridge.Server.constructor` | src/bridgeserver.c:43-47 | a new reader has nothing open and no mapping object |
| `Bridge.Server.HandleOpen` | src/bridgeserver.c:51-118 | a new id for the path, or nothing changes, or the reader dies because the file cannot be described |
| `Bridge.Server.HandleClose` | src/bridgeserver.c:120-153 | that handle is gone if and only if the close succeeded, and no other |
| `Bridge.Server.CreateFmo` | src/bridgeserver.c:10-35 | a new object under the first of five proposed names that is not taken, or none because all are |
| `Bridge.Server.HandleRead` | src/bridgeserver.c:201-270 | the object named in the reply holds what was produced for the path of the handle and is large enough; which object it is, and whether there is one, follows from sizes and free names alone: the old one if it is large enough, else a new one of just the size needed; an object that was replaced is left alone |
| `Bridge.FindBound` | src/bridgeclient.c:243-255 | a client handle's id is open on its own path |
| `Bridge.Bind` | src/bridgeclient.c:474-484 | adding a handle to both tables keeps the correspondence |
| `Bridge.Unbind` | src/bridgeclient.c:382-388 | so does removing one |
| `Bridge.Leak` | src/bridgeclient.c:485-492 | a handle only the reader has breaks it until it is closed |
| `Bridge.OpenResult` | src/bridgeclient.c:446-504 | EINVAL if and only if not running, EIO if the reader cannot be asked or refuses or the path cannot be copied, ENOMEM if block or table entry cannot be had |
| `Bridge.Client.constructor` | src/bridgeclient.c:689-718 | the state is running if and only if the reader was started, and the invariant holds |
| `Bridge.Client.Die` | src/bridgeclient.c:614-624 | the reader may die at any time without breaking the invariant |
| `Bridge.Client.Open` | src/bridgeclient.c:446-504 | success if and only if running, connected, openable and no local step fails, else the errno of what failed and the table unchanged; the correspondence is lost if and only if undoing fails |
| `Bridge.Client.Admit` | src/bridgeclient.c:461-495 | the same for the local steps, once the reader has opened the file |
| `Bridge.Client.Close` | src/bridgeclient.c:370-396 | the handle leaves both tables or neither |
| `Bridge.Client.Read` | src/bridgeclient.c:231-292 | what is returned is what the reader produced for that request on the handle's file; a read succeeds if and only if the reader answers and the cached name is new and the reader still lives, or is that of an object that was opened |
| `Bridge.Client.CopyReply` | src/bridgeclient.c:262-281 | the bytes copied are those of the object the reply names; none are if it could not be opened, now or when its name was cached |
| `Bridge.Client.Restore` | src/bridgeclient.c:596-612 | succeeds if and only if every file opens again; then each handle is bound to its path and the reader has no other |
| `Bridge.Client.ProcessFinished` | src/bridgeclient.c:614-687 | running again if and only if a reader was started and all files opened; otherwise disconnected and not running; the correspondence holds either way, and a second crash during the restart goes unnoticed |
| `Bridge.Happen` | src/bridgeclient.c:294-396 | any event, even on a state read before it changed, keeps the invariant and takes the bridge exactly as opening, closing, reading, dying or restarting do |
| `Bridge.Session` | src/bridgeclient.c:231-718 | over any run from the start of the plugin, each event returns and changes what it must, every read that returns data returns what the reader produced for that request on that file; the client it ends with is in the last of these states, its handles are bound to handles of the reader on the same paths, and the reader has no others if every close on the way out succeeded |
| `StreamMap.Stream.AddRef` | src/stream.c:219-219 | one more reference |
| `StreamMap.Stream.Destroy` | src/stream.c:221-243 | one fewer, and closed when it was the last |
| `StreamMap.HandToKey` | src/stream.c:531-540 | a reference in hand that goes into the table keeps all counts |
| `StreamMap.KeyToHand` | src/stream.c:637-650 | so does one that is taken out |
| `StreamMap.HandToSlot` | src/stream.c:625-629 | so does one that goes into the pool |
| `StreamMap.SlotToHand` | src/stream.c:435-436 | so does one that is taken from it |
| `StreamMap.IdleCount` | src/stream.c:363-374 | at most as many streams are idle as there are slots, and as many if and only if no slot is blank |
| `StreamMap.Leave` | src/stream.c:435-436 | blanking a slot takes its stream out of the queue and keeps the order of the others |
| `StreamMap.Enter` | src/stream.c:602-629 | filling a blank slot puts its stream at the end of the queue |
| `StreamMap.Position` | src/stream.c:424-431 | with a clock that ticks, the slot found is the one of the file's stream idle for longest |
| `StreamMap.PooledFound` | src/stream.c:424-435 | a stream is found if and only if one of the file is idle and no blank slot passes for it |
| `StreamMap.PooledMissed` | src/stream.c:432-434 | if no slot has the identity, no idle stream does |
| `StreamMap.Eldest` | src/stream.c:616-627 | with a clock that ticks, the oldest slot holds the head of the queue |
| `StreamMap.StreamMap.constructor` | src/stream.c:338-384 | an empty map is valid; four blank slots in pool mode, none otherwise |
| `StreamMap.StreamMap.Release` | src/stream.c:221-243 | giving up a reference keeps all counts, and the stream is closed if and only if it was the last |
| `StreamMap.StreamMap.Search` | src/stream.c:424-431 | the slot found has the identity and of those that have it the least time |
| `StreamMap.StreamMap.FindFromPool` | src/stream.c:417-442 | a stream comes out if and only if one is reusable; its slot has the least time of the file's and is blanked, the others keep their order, and with a ticking clock it is the one of the file idle for longest |
| `StreamMap.StreamMap.ScanMap` | src/stream.c:450-468 | a live stream of the file, or there is none, or some identity could not be had |
| `StreamMap.StreamMap.FindFromMap` | src/stream.c:470-500 | a live stream of the file is shared, its count raised by one, if and only if there is one |
| `StreamMap.StreamMap.OpenStream` | src/stream.c:149-217 | a new live stream with its one reference in hand |
| `StreamMap.StreamMap.Insert` | src/stream.c:531-541 | the stream in hand is in the table under a key never used before |
| `StreamMap.StreamMap.CreateStream` | src/stream.c:502-544 | a new entry for a stream of that file, which was open before if and only if one was reusable and else is new; which calls succeed; a failure changes nothing |
| `StreamMap.StreamMap.Vacancy` | src/stream.c:614-624 | the first blank slot, or there is none and the oldest has the least time of all |
| `StreamMap.StreamMap.AddToPool` | src/stream.c:602-635 | the stream and the time go into the first blank slot, or, only if no slot is blank, in place of the stream with the least time, which is evicted; with a ticking clock the pool is a queue whose head makes room |
| `StreamMap.StreamMap.Disown` | src/stream.c:651-653 | the entry's resampler is destroyed once and belongs to nobody else |
| `StreamMap.StreamMap.Remove` | src/stream.c:637-653 | the entry is gone and its reference is in hand |
| `StreamMap.StreamMap.FreeStream` | src/stream.c:637-666 | an unknown key changes nothing; otherwise exactly that entry goes, its resampler is destroyed, and in pool mode its stream joins the queue, whose head makes room if no slot is blank, or loses the reference |
| `StreamMap.StreamMap.GetStreamAndResampler` | src/stream.c:546-587 | an entry gets one resampler of its own at its first use and keeps it; no other entry changes |
| `StreamMap.StreamMap.DrainPool` | src/stream.c:401-406 | every idle stream has lost the pool's reference |
| `StreamMap.StreamMap.Destroy` | src/stream.c:396-415 | every stream ever opened has been closed exactly once, and every resampler destroyed exactly once |
| `StreamMap.StreamMap.ValidIsSane` | src/stream.c:28-33 | open streams are exactly those that an entry or slot points to; in cache mode they have distinct identities; entries have distinct resamplers |
| `StreamMap.StreamMap.Happen` | src/stream.c:502-666 | every operation keeps counts, ownership and the rules of the mode, and takes the map exactly as creating, looking up or freeing do |
| `StreamMap.Life` | src/stream.c:338-666 | over any sequence of operations from creation to destruction each returns and changes what it must, and in the end every stream that was opened has been closed exactly once and every resampler destroyed exactly once |
| `PullLoop.FfmpegStream.constructor` | src/ffmpeg.c:438-486 | what is still to come from a new stream is the decoder's output for the packets it will accept |
| `PullLoop.SelectedOnly` | src/ffmpeg.c:507-509 | the selected packets are those of the stream, and all packets if no others are there |
| `PullLoop.SelectedBetween` | src/ffmpeg.c:507-509 | a packet of another stream makes no difference wherever it stands, one of the stream is read in its place |
| `PullLoop.AcceptedLast` | src/ffmpeg.c:549-555 | a packet is accepted unless the decoder refuses it after those it accepted before |
| `PullLoop.FfmpegStream.ReceiveFrame` | src/ffmpeg.c:498-498 | the next released frame, or none yet, or none ever |
| `PullLoop.FfmpegStream.ReadPacket` | src/ffmpeg.c:500-512 | the packet read is of the selected stream, all packets skipped before it are of others, and what follows is left; it fails if and only if none of the stream is left |
| `PullLoop.FfmpegStream.SendPacket` | src/ffmpeg.c:514-514 | the packet is accepted, or refused, or too late |
| `PullLoop.FfmpegStream.SendNullPacket` | src/ffmpeg.c:516-516 | the decoder is flushed, and says so the second time |
| `PullLoop.FfmpegStream.Grab` | src/ffmpeg.c:518-559 | terminates with the first frame still to come and leaves the rest, or reports the end if and only if nothing is to come |
| `PullLoop.ReleasedGrows` | src/ffmpeg.c:518-559 | frames released once are not taken back by further packets |
| `PullLoop.LosslessIff` | src/ffmpeg.c:549-555 | no packet is lost if and only if none is refused right after the decoder asked for one |
| `PullLoop.GrabAll` | src/ffmpeg.c:518-559 | repeated grabs yield exactly what was to come, in order, and then the end |
| `PullLoop.DecodeFile` | src/ffmpeg.c:518-559 | for a decoder that never refuses, the frames of all the selected stream's packets |
| `DecoderList.Comma` | src/ffmpeg.c:253-254 | the first comma or the end |
| `DecoderList.PiecesPartition` | src/ffmpeg.c:247-255 | the pieces are free of commas and joined by commas give the list back |
| `DecoderList.TrimMeans` | src/ffmpeg.c:256-262 | what is taken off is white space at the ends, and none is left there |
| `DecoderList.TrimToken` | src/ffmpeg.c:256-262 | the token moved in place is the trimmed token |
| `DecoderList.PreferredStep` | src/ffmpeg.c:247-272 | the usable decoders are those of the first piece followed by those of the rest |
| `DecoderList.PreferredMeans` | src/ffmpeg.c:247-272 | the usable decoders are those named, in order, by the pieces that are not empty, whose trimmed name is shorter than 32 characters, and whose decoder is for the format |
| `DecoderList.FindPreferred` | src/ffmpeg.c:242-275 | the first usable decoder from the position on, the position left so that the next call finds the next one; none if and only if none is left |
| `DecoderList.OpenFirstMeans` | src/ffmpeg.c:319-358 | the decoder opened is the first that opens, or the default one if none does, provided the file was rewound after each one before; the first rewind that fails ends it |
| `DecoderList.OpenPreferredCodec` | src/ffmpeg.c:319-358 | the loop over find_preferred opens exactly that one, or fails when a rewind does |
| `AudioIndex.StepKeeps` | src/audioidx.c:68-152 | after every step the map is the index of exactly the packets processed, with running totals |
| `AudioIndex.RunKeeps` | src/audioidx.c:68-152 | so it is under every interleaving |
| `AudioIndex.CompleteIndex` | src/audioidx.c:123-135 | the index of a prefix maps exactly its packets' timestamps, each to the samples before it |
| `AudioIndex.CompleteLookup` | src/audioidx.c:232-264 | in the complete index the first packet is at its start, each further one as many samples after the one before as that one has, and nothing else is found |
| `AudioIndex.SameBelow` | src/audioidx.c:123-135 | indexing further packets changes no lookup at or below the last one indexed |
| `AudioIndex.LookupSound` | src/audioidx.c:232-264 | a lookup at any time returns what the complete index would, or -1 |
| `AudioIndex.WaitingLookupComplete` | src/audioidx.c:246-250 | a waiting lookup that may return gives what the complete index would, unless the indexer failed or is being stopped |
| `AudioIndex.EndedReleasesWaiters` | src/audioidx.c:246-248 | once the indexer has ended, however it ended, no reader that looks has to wait |
| `AudioIndex.LastSignalIff` | src/audioidx.c:143-152 | the readers asleep when the indexer ends are all woken if and only if there is at most one |
| `AudioIndex.OneSleepsOn` | src/audioidx.c:143-152 | an interleaving with two readers asleep when the indexer ends, one of whom sleeps on |
| `Opener.StepKeeps` | src/audio.c:423-453 | every step of the opener and the owner keeps the invariant of the slots |
| `Opener.RunKeeps` | src/video.c:273-305 | so does every interleaving |
| `Opener.ReadersSeeOpenSlots` | src/video.c:307-317 | at most one thread is started, and every slot the owner may use is open |
| `Opener.OpenerStaysAboveLen` | src/audio.c:434-450 | the thread writes to no published slot |
| `Opener.EndedWhenFull` | src/audio.c:423-453 | unless opening fails or the reader is destroyed, the opener ends only when every slot is open and published |
| `Opener.SeesPublished` | src/video.c:307-317 | at each find_stream the owner sees all slots published by then, and a thread that can be started has been if there is a second slot |
| `Opener.ClosedOnce` | src/video.c:568-579 | destroying closes every opened slot exactly once and no other |
| `Opener.JoinIsReached` | src/audio.c:511-517 | the wait for the thread ends |

## Left out

- Overflow of 64-bit arithmetic other than the wrap-around of differences with
  `AV_NOPTS_VALUE`, and whatever else a compiler may make of that.
- I/O errors of FFmpeg and of the pipe, allocation failures, time-outs: a call
  that breaks off in the middle is not modelled, except where a parameter says
  so.
- The filter history of `swr_convert` at unequal rates, `AVERROR_INPUT_CHANGED`,
  a decoder that answers a flush with `EAGAIN`, and what decoders do with damaged
  data.
- Video.Replay: says of a request that follows one past the end only that it is
  answered rightly, or leaves the picture as it was, or is blank when its stamp is
  negative; which of these it is depends on which decoder is chosen
  (`Video.VideoReader.Read`).
- Audio.Interleave: covers requests past the end only where the last frame is not
  shorter, and frames of one size that is a whole number of output samples or
  less than one; elsewhere it can be false (`Audio.ShortLastIff`,
  `Audio.MisleadingIff`).
- Audio.AudioReader.StreamRead: says of handles that share decoders at equal rates
  with stamps that are not contiguous only that samples are decoded or silent, and
  nothing about unequal rates with stamps that
  are not contiguous, where termination depends on the stamps.
- Spurious wake-ups of condition variables, which can only release readers that
  `AudioIndex.LastSignalIff` counts as asleep.
- The concurrent parts (`RequestContext`, `Opener`, `AudioIndex`, `Transfer`) are
  modelled on values rather than on objects that threads share; memory ordering
  and the map of clients itself, which the shutdown scans without its lock, are
  not captured.
- Pipe.Client.Call: the server's turn is one step of the client's call; that both
  sides may be at work at once is captured by `Transfer` alone.
- Bridge.Session: sizes of a file's pictures and samples are taken to depend on
  its path alone, so a file that is replaced while the reader restarts is not
  captured; neither are other processes that map an object of the same name, nor
  the truncation of sizes to 32 bits.
- StreamMap.StreamMap.CreateStream: the identity of a file is taken to stay the
  same between its lookup and its opening.
- Liveness of the IPC server's shutdown beyond `RequestContext.OneCallAfterClosing`,
  the interruption of blocking pipe calls, and detection of a second crash during a
  restart, which the code does not guarantee.
- The handshake of a new connection, `func_info_get` and `func_config` over the
  bridge, and the plugin's exit.
- Configuration, dialogs, progress windows, error reporting, process launch,
  pixel scaling and codec options: little logic, or calls into other libraries.
