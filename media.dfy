/** Data model of what get_key_frames reads from libavformat/libavcodec:
    the stream table, the container duration, and the packets the demuxer
    returns together with what the decoder said about each of them.
    Also the two pieces of C++ integer semantics the algorithm relies on:
    the `(int)` cast of a 64-bit value and division that truncates toward zero. */
module Media {

  const MinInt32: int := -0x8000_0000
  const MaxInt32: int := 0x7fff_ffff
  const MinInt64: int := -0x8000_0000_0000_0000
  const MaxInt64: int := 0x7fff_ffff_ffff_ffff

  type int32 = x: int | MinInt32 <= x <= MaxInt32
  type int64 = x: int | MinInt64 <= x <= MaxInt64

  /** Conversion of a wider integer to C++ `int` (32 bits, two's complement):
      the value is kept when it fits, otherwise it wraps modulo 2^32. */
  function ToInt32(x: int): (r: int32)
    ensures MinInt32 <= x <= MaxInt32 ==> r == x
    ensures (x - r) % 0x1_0000_0000 == 0
  {
    var m := (x + 0x8000_0000) % 0x1_0000_0000;
    m - 0x8000_0000
  }

  /** C++ `duration / 1000000` on a signed 64-bit value: the quotient
      is truncated toward zero, so a negative duration rounds up. */
  function WholeSeconds(micros: int): (r: int)
    ensures micros >= 0 ==> 0 <= r && r * 1000000 <= micros < r * 1000000 + 1000000
    ensures micros < 0 ==> r <= 0 && r * 1000000 - 1000000 < micros <= r * 1000000
  {
    if micros >= 0 then micros / 1000000 else -((-micros) / 1000000)
  }

  /** AVRational: a fraction num/den. */
  datatype Rational = Rational(num: int32, den: int32)

  /** AVMediaType, reduced to what the stream selector distinguishes. */
  datatype MediaType = Video | Audio | Subtitle | Data | Attachment | Unknown

  /** One entry of the stream table (AVStream with its codecpar). */
  datatype StreamInfo = StreamInfo(
    codecType: MediaType,
    nbFrames: int64,          // declared frame count, 0 when the container omits it
    avgFrameRate: Rational,
    timeBase: Rational)

  /** The opened container: its stream table and its duration in microseconds. */
  datatype Container = Container(streams: seq<StreamInfo>, duration: int64)

  /** Outcome of avcodec_receive_frame for one packet. */
  datatype Receive =
    | GotFrame            // a frame was returned (response >= 0)
    | EAgain              // AVERROR(EAGAIN): the decoder needs more input
    | Eof                 // AVERROR_EOF: the decoder is drained
    | OtherError          // any other negative error code

  /** One successful av_read_frame, together with the decoder's answers for it.
      `sent` is whether avcodec_send_packet returned a non-negative value;
      `receive` and `keyFrame` (the frame's key_frame field when it is
      inspected) matter only when the packet is on the selected stream and
      was sent. The sequence of these ends where av_read_frame fails. */
  datatype Packet = Packet(
    streamIndex: int32,
    pts: int64,
    sent: bool,
    receive: Receive,
    keyFrame: int32)
}
