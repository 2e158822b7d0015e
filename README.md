# Keyframe probe of ffprobe-wasm, modelled in Dafny

ffprobe-wasm's main operation is `get_key_frames(filename)`; it also exposes
three version getters (`avformat_version`, `avcodec_version`,
`avutil_version`). `get_key_frames` opens a media file with libavformat,
picks its first video stream and sends that stream's packets to the decoder until the packets run
out or 1000 of them have been classified. A packet is classified when its send
succeeded and the receive that follows answered anything but EAGAIN or EOF,
other receive errors included. For each classified packet whose frame buffer
then has `key_frame == 1`, `start_secs` gets `(int) pts * timeBase` of the
packet just sent: a time in seconds. After a receive error the frame buffer
holds whatever the decoder left in it. The packet is the one just sent, not
necessarily the keyframe's own: a decoder that delays its output returns the
frame of an earlier packet.

This project models the algorithm inside `get_key_frames`. The libav calls are
replaced by data:

- The opened container is a `Media.Container`: the stream table
  (`StreamInfo`: codec type, declared `nb_frames`, average frame rate, time
  base) and the duration in microseconds.
- The demux/decode pipeline after the seek is a `seq<Media.Packet>`. There is one
  entry per successful `av_read_frame`. Each entry holds the packet's stream
  index and pts. It also holds whether `avcodec_send_packet` succeeded, the
  outcome of `avcodec_receive_frame` (a frame, EAGAIN, EOF or another error),
  and the frame's `key_frame` field. The sequence ends where `av_read_frame`
  fails.
- A start time is kept as the truncated tick count `(int) pts`, with the time
  base returned beside it as a rational. The time in seconds is
  `tick * num / den`.

Modules:

- `Media` holds the data model, the C++ `(int)` conversion of a 64-bit value
  (`ToInt32`, two's-complement wrap) and `duration / 1000000` with truncation
  toward zero (`WholeSeconds`).
- `StreamSelection` holds the loop over the stream table (`SelectVideoStream`)
  and the frame-count estimate (`FrameCount`).
- `KeyFrameScan` holds the budgeted scan loop (`ScanKeyFrames`). `Scan` is the
  function that specifies it, and the lemmas state the scan's properties.
- `Probe` holds `GetKeyFrames`, which combines the two parts.

The frame-count estimate multiplies the whole seconds of the duration by the
frame-rate numerator and never divides by the denominator (line 79). So a
10-second stream at 30000/1001 fps gets 300000 (`FrameCountNtscExample`). The
value is computed but never used.

## Model

| member | source | states |
|---|---|---|
| `Media.ToInt32` | src/ffprobe-wasm-wrapper.cpp:119 | the `(int)` cast keeps every value in the 32-bit range and otherwise wraps modulo 2^32 into that range |
| `Media.WholeSeconds` | src/ffprobe-wasm-wrapper.cpp:79 | `duration / 1000000` truncates toward zero: a non-negative result bounded by the duration for non-negative durations, a non-positive one for negative durations |
| `StreamSelection.FirstVideo` | src/ffprobe-wasm-wrapper.cpp:66-74 | the selected index is -1 exactly when no stream is video; otherwise it is a video stream and no earlier stream is video |
| `StreamSelection.FirstVideoIgnoresLater` | src/ffprobe-wasm-wrapper.cpp:72-74 | once a video stream is latched, streams after it (video or not) do not change the selection |
| `StreamSelection.FrameCount` | src/ffprobe-wasm-wrapper.cpp:75-80 | a declared count whose `int` cast is not zero gives that cast (the count itself when it fits in `int`); a cast of 0 gives whole seconds of duration times the frame-rate numerator, cast to `int` (the product itself when it fits) |
| `StreamSelection.FrameCountIgnoresDenominator` | src/ffprobe-wasm-wrapper.cpp:79 | the estimate is the same whatever the frame-rate denominator |
| `StreamSelection.FrameCountNtscExample` | src/ffprobe-wasm-wrapper.cpp:79 | 10 s at 30000/1001 fps with no declared count gives 300000 |
| `StreamSelection.SelectVideoStream` | src/ffprobe-wasm-wrapper.cpp:62-85 | the loop returns the first video stream's index (-1 when there is none) and that stream's frame count (0 when there is none) |
| `KeyFrameScan.ScanKeyFrames` | src/ffprobe-wasm-wrapper.cpp:101-126 | the loop's entries are `Scan` of the trace with budget 1000, and also exactly the cast pts of the classified key_frame == 1 packets among those read, in read order; at most 1000 entries; at most 1000 packets classified; it stops before the end of the trace only when exactly 1000 were classified, and once the 1000th packet is classified it reads no further (the last packet read is that one) |
| `KeyFrameScan.ScanStoppedAt` | src/ffprobe-wasm-wrapper.cpp:122 | when the scan stops early with the budget used up, the packets read so far determine the whole result |
| `KeyFrameScan.ScanBounded` | src/ffprobe-wasm-wrapper.cpp:101-122 | the result has at most `budget` entries and at most one per classified packet |
| `KeyFrameScan.ScanWithinBudget` | src/ffprobe-wasm-wrapper.cpp:111-120 | while the budget lasts, the result is exactly the cast pts of the classified packets whose key_frame is 1, in read order |
| `KeyFrameScan.ScanAppend` | src/ffprobe-wasm-wrapper.cpp:106-126 | the entries of an earlier part of the trace come first, followed by those of the rest scanned with the budget left over; no sorting happens |
| `KeyFrameScan.ScanExhausted` | src/ffprobe-wasm-wrapper.cpp:122 | after the budget is used up, packets read later change nothing |
| `KeyFrameScan.ScanPrefix` | src/ffprobe-wasm-wrapper.cpp:119 | the result is append-only: the result of a trace is a prefix of the result of any longer trace |
| `KeyFrameScan.SkippedPacketIgnored` | src/ffprobe-wasm-wrapper.cpp:107-115 | a packet that does not reach the keyframe test can be removed from anywhere in the trace without changing the result |
| `KeyFrameScan.ForeignPacketIgnored` | src/ffprobe-wasm-wrapper.cpp:107 | a packet of another stream changes neither the budget nor the result |
| `KeyFrameScan.FailedSendIgnored` | src/ffprobe-wasm-wrapper.cpp:109-111 | a packet whose send failed changes neither the budget nor the result |
| `KeyFrameScan.DrainSignalIgnored` | src/ffprobe-wasm-wrapper.cpp:112-115 | a receive of EAGAIN or EOF changes neither the budget nor the result, and the scan goes on with the next packet |
| `KeyFrameScan.OtherStreamsIrrelevant` | src/ffprobe-wasm-wrapper.cpp:106-107 | removing every packet of the other streams leaves the result unchanged |
| `KeyFrameScan.TruncatedToBudget` | src/ffprobe-wasm-wrapper.cpp:101-122 | with only classified keyframe packets, the result holds exactly the first min(length, budget) of them, each pts cast to `int` |
| `Probe.GetKeyFrames` | src/ffprobe-wasm-wrapper.cpp:62-133 | fails with NoVideoStream exactly when no stream is video; otherwise it returns the first video stream's time base and the budgeted scan of the trace on that stream, at most 1000 entries |

## Left out

- The libav calls are not modelled as code. Their outcomes are fields of the packet trace. This covers context allocation, open, stream info, decoder lookup and open, packet and frame allocation, read, send, receive and release. The seek to 0 with `AVSEEK_FLAG_ANY` (line 103) is taken to leave the trace as given.
- The open errors (lines 37-57) are not modelled. The source prints a message and continues, and what happens next depends on libav. The `fopen`/`fclose` probe is file I/O.
- The decoder lookup (`avcodec_find_decoder`, `pCodec`, `pCodecParameters`) is not modelled. It only feeds the decoder setup, which is part of the trace.
- Reading `streams[-1]` when the table has no video stream (line 87) is undefined behaviour. `Probe.GetKeyFrames` returns `NoVideoStream` instead.
- Double arithmetic (`av_q2d`, `(int) pts * timeBase`) is left out. The entry is kept as the integer tick and the time base as a rational.
- `StreamSelection.FrameCount`: the int64 product at line 79 can overflow, which is undefined behaviour in C++. The model casts the exact product to `int` and so gives the two's-complement wrapped value even where the C++ product overflows int64, a value C++ does not promise.
- The key_frame value after a receive error other than EAGAIN/EOF is whatever the frame buffer holds. It is an input of the trace.
- The log level, the version strings and the Emscripten bindings are not modelled. These are global configuration, compile-time macros and marshalling.
- Packets are not released on the EAGAIN/EOF `continue` (line 114). That is a resource leak and does not change behaviour. Resource release is not modelled.
