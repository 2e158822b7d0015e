/** The stream-selection loop of get_key_frames: the first video stream
    of the table is latched, and its frame count is read or estimated. */
module StreamSelection {
  import opened Media

  predicate IsVideo(s: StreamInfo) {
    s.codecType == Video
  }

  /** Index of the first video stream of the table, or -1 when there is none. */
  function FirstVideo(streams: seq<StreamInfo>): (r: int)
    ensures -1 <= r < |streams|
    ensures r == -1 <==> forall i :: 0 <= i < |streams| ==> !IsVideo(streams[i])
    ensures r >= 0 ==> IsVideo(streams[r]) && forall j :: 0 <= j < r ==> !IsVideo(streams[j])
  {
    if streams == [] then -1
    else if IsVideo(streams[0]) then 0
    else
      var k := FirstVideo(streams[1..]);
      if k == -1 then -1 else k + 1
  }

  /** Streams appended after a video stream do not change the selection. */
  lemma {:induction false} FirstVideoIgnoresLater(streams: seq<StreamInfo>, later: seq<StreamInfo>)
    requires FirstVideo(streams) != -1
    ensures FirstVideo(streams + later) == FirstVideo(streams)
  {
    var k := FirstVideo(streams);
    var all := streams + later;
    assert IsVideo(all[k]);
    forall j | 0 <= j < k ensures !IsVideo(all[j]) {
      assert all[j] == streams[j];
    }
  }

  /** The value the source stores in `nb_frames` for the selected stream:
      the declared count cast to `int`; when that is 0, the whole seconds of
      the container duration times the numerator of the average frame rate.
      The denominator of the frame rate is not used. */
  function FrameCount(s: StreamInfo, duration: int64): (r: int32)
    ensures ToInt32(s.nbFrames) != 0 ==> r == ToInt32(s.nbFrames)
    ensures ToInt32(s.nbFrames) == 0 ==> r == ToInt32(WholeSeconds(duration) * s.avgFrameRate.num)
    ensures s.nbFrames != 0 && MinInt32 <= s.nbFrames <= MaxInt32 ==> r == s.nbFrames
    ensures s.nbFrames == 0 && MinInt32 <= WholeSeconds(duration) * s.avgFrameRate.num <= MaxInt32 ==>
              r == WholeSeconds(duration) * s.avgFrameRate.num
  {
    var declared := ToInt32(s.nbFrames);
    if declared == 0 then ToInt32(WholeSeconds(duration) * s.avgFrameRate.num) else declared
  }

  /** The estimate does not depend on the denominator of the average frame rate. */
  lemma FrameCountIgnoresDenominator(s: StreamInfo, duration: int64, den: int32)
    ensures FrameCount(s.(avgFrameRate := Rational(s.avgFrameRate.num, den)), duration)
         == FrameCount(s, duration)
  {
  }

  /** A stream without a declared count, 10 s long at 30000/1001 frames per second,
      gets the estimate 10 * 30000 rather than about 300 frames. */
  lemma FrameCountNtscExample(tb: Rational)
    ensures FrameCount(StreamInfo(Video, 0, Rational(30000, 1001), tb), 10_000_000) == 300000
  {
  }

  /** The `for` loop over the stream table: it latches the index of the first
      video stream (later video streams are ignored) and computes that stream's
      frame count; with no video stream the index stays -1 and the count 0. */
  method SelectVideoStream(c: Container) returns (videoIndex: int, nbFrames: int32)
    ensures videoIndex == FirstVideo(c.streams)
    ensures videoIndex == -1 ==> nbFrames == 0
    ensures videoIndex != -1 ==> nbFrames == FrameCount(c.streams[videoIndex], c.duration)
  {
    videoIndex, nbFrames := -1, 0;
    var i := 0;
    while i < |c.streams|
      invariant 0 <= i <= |c.streams|
      invariant -1 <= videoIndex < i
      invariant videoIndex == -1 <==> forall j :: 0 <= j < i ==> !IsVideo(c.streams[j])
      invariant videoIndex >= 0 ==> IsVideo(c.streams[videoIndex])
      invariant forall j :: 0 <= j < videoIndex ==> !IsVideo(c.streams[j])
      invariant videoIndex == -1 ==> nbFrames == 0
      invariant videoIndex != -1 ==> nbFrames == FrameCount(c.streams[videoIndex], c.duration)
    {
      var s := c.streams[i];
      if s.codecType == Video {
        if videoIndex == -1 {
          videoIndex := i;
          nbFrames := ToInt32(s.nbFrames);
          if nbFrames == 0 {
            nbFrames := ToInt32(WholeSeconds(c.duration) * s.avgFrameRate.num);
          }
        }
      }
      i := i + 1;
    }
    var first := FirstVideo(c.streams);
    if first != -1 && videoIndex != -1 {
      assert !(first < videoIndex) && !(videoIndex < first);
    }
  }
}
