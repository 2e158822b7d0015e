/** get_key_frames as a whole: select the video stream, then scan its
    packets, and return the keyframe timestamps as ticks of the stream's
    time base (each entry is `tick * timeBase.num / timeBase.den` seconds). */
module Probe {
  import opened Media
  import opened StreamSelection
  import opened KeyFrameScan

  /** The table has no video stream. The source goes on to read
      `streams[-1]`; here that is an error result instead. */
  datatype ProbeError = NoVideoStream

  datatype Result<T> = Success(value: T) | Failure(error: ProbeError)

  /** KeyFramesResponse: the recorded start times, in read order. */
  datatype KeyFramesResponse = KeyFramesResponse(startTicks: seq<int32>, timeBase: Rational)

  method GetKeyFrames(c: Container, trace: seq<Packet>) returns (r: Result<KeyFramesResponse>)
    ensures r.Failure? <==> forall i :: 0 <= i < |c.streams| ==> !IsVideo(c.streams[i])
    ensures r.Success? ==>
              var v := FirstVideo(c.streams);
              0 <= v < |c.streams| &&
              r.value.timeBase == c.streams[v].timeBase &&
              r.value.startTicks == Scan(trace, v, MaxPackets)
    ensures r.Success? ==> |r.value.startTicks| <= MaxPackets
  {
    var videoIndex, nbFrames := SelectVideoStream(c);
    if videoIndex == -1 {
      return Failure(NoVideoStream);
    }
    var timeBase := c.streams[videoIndex].timeBase;
    var startTicks, read := ScanKeyFrames(videoIndex, trace);
    r := Success(KeyFramesResponse(startTicks, timeBase));
  }
}
