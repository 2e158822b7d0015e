/** The keyframe scan loop of get_key_frames: packets are read in order,
    those of the selected stream are sent to the decoder, each decoded frame
    is classified, keyframe timestamps are recorded, and a budget of 1000
    classified packets bounds the scan. */
module KeyFrameScan {
  import opened Media

  /** Initial value of the budget counter `max_packets_to_process`. */
  const MaxPackets: int := 1000

  /** A packet reaches the keyframe test: it belongs to the selected stream,
      the decoder accepted it, and receiving a frame did not answer EAGAIN or
      EOF. Every other receive error is classified too, because only those
      two codes are tested. */
  predicate Classified(p: Packet, video: int) {
    p.streamIndex == video && p.sent && p.receive != EAgain && p.receive != Eof
  }

  /** What a classified packet adds to the result: its pts cast to `int`
      when the frame's key_frame field is 1, nothing otherwise. */
  function Emitted(p: Packet): seq<int32> {
    if p.keyFrame == 1 then [ToInt32(p.pts)] else []
  }

  /** Specification of the scan: the entries recorded for `trace` when the
      budget counter holds `budget`. A classified packet decrements the
      counter and the scan stops once the counter is at most 0. */
  function Scan(trace: seq<Packet>, video: int, budget: int): seq<int32>
    decreases |trace|
  {
    if trace == [] then []
    else if !Classified(trace[0], video) then Scan(trace[1..], video, budget)
    else Emitted(trace[0]) + if budget - 1 <= 0 then [] else Scan(trace[1..], video, budget - 1)
  }

  /** Number of packets of `trace` that reach the keyframe test. */
  function ClassifiedCount(trace: seq<Packet>, video: int): nat
    decreases |trace|
  {
    if trace == [] then 0
    else (if Classified(trace[0], video) then 1 else 0) + ClassifiedCount(trace[1..], video)
  }

  /** Reference definition without a budget: the pts of every classified
      keyframe packet, in read order. */
  function KeyTicks(trace: seq<Packet>, video: int): seq<int32>
    decreases |trace|
  {
    if trace == [] then []
    else (if Classified(trace[0], video) then Emitted(trace[0]) else []) + KeyTicks(trace[1..], video)
  }

  /** Packets of other streams removed, the order of the rest kept. */
  function OnStream(trace: seq<Packet>, video: int): (r: seq<Packet>)
    ensures |r| <= |trace|
    ensures forall i :: 0 <= i < |r| ==> r[i].streamIndex == video
    decreases |trace|
  {
    if trace == [] then []
    else (if trace[0].streamIndex == video then [trace[0]] else []) + OnStream(trace[1..], video)
  }

  lemma {:induction false} ClassifiedCountAppend(a: seq<Packet>, b: seq<Packet>, video: int)
    ensures ClassifiedCount(a + b, video) == ClassifiedCount(a, video) + ClassifiedCount(b, video)
    decreases |a|
  {
    if a != [] {
      assert (a + b)[1..] == a[1..] + b;
      ClassifiedCountAppend(a[1..], b, video);
    } else {
      assert a + b == b;
    }
  }

  lemma {:induction false} NothingClassifiedNoTicks(trace: seq<Packet>, video: int)
    requires ClassifiedCount(trace, video) == 0
    ensures KeyTicks(trace, video) == []
    ensures Scan(trace, video, 0) == []
    decreases |trace|
  {
    if trace != [] {
      NothingClassifiedNoTicks(trace[1..], video);
    }
  }

  /** The scan records at most one entry per classified packet and at most
      as many entries as the budget allows. */
  lemma {:induction false} ScanBounded(trace: seq<Packet>, video: int, budget: int)
    requires budget >= 1
    ensures |Scan(trace, video, budget)| <= budget
    ensures |Scan(trace, video, budget)| <= ClassifiedCount(trace, video)
    decreases |trace|
  {
    if trace != [] {
      if !Classified(trace[0], video) {
        ScanBounded(trace[1..], video, budget);
      } else if budget - 1 > 0 {
        ScanBounded(trace[1..], video, budget - 1);
      }
    }
  }

  /** While the budget is not exhausted, every classified keyframe packet
      contributes its entry: an entry is recorded if and only if its packet
      was classified with key_frame == 1. */
  lemma {:induction false} ScanWithinBudget(trace: seq<Packet>, video: int, budget: int)
    requires ClassifiedCount(trace, video) <= budget
    ensures Scan(trace, video, budget) == KeyTicks(trace, video)
    decreases |trace|
  {
    if trace != [] {
      if !Classified(trace[0], video) {
        ScanWithinBudget(trace[1..], video, budget);
      } else if budget - 1 <= 0 {
        NothingClassifiedNoTicks(trace[1..], video);
      } else {
        ScanWithinBudget(trace[1..], video, budget - 1);
      }
    }
  }

  /** Read order is kept: the entries of a trace are those of its first part
      followed by those of the rest, scanned with the budget left over. */
  lemma {:induction false} ScanAppend(a: seq<Packet>, b: seq<Packet>, video: int, budget: int)
    requires ClassifiedCount(a, video) < budget
    ensures Scan(a + b, video, budget)
         == Scan(a, video, budget) + Scan(b, video, budget - ClassifiedCount(a, video))
    decreases |a|
  {
    if a == [] {
      assert a + b == b;
    } else {
      assert (a + b)[0] == a[0];
      assert (a + b)[1..] == a[1..] + b;
      if !Classified(a[0], video) {
        ScanAppend(a[1..], b, video, budget);
      } else {
        ScanAppend(a[1..], b, video, budget - 1);
      }
    }
  }

  /** Once a first part of the trace has used up the budget, nothing read
      after it changes the result. */
  lemma {:induction false} ScanExhausted(a: seq<Packet>, b: seq<Packet>, video: int, budget: int)
    requires 1 <= budget <= ClassifiedCount(a, video)
    ensures Scan(a + b, video, budget) == Scan(a, video, budget)
    decreases |a|
  {
    assert a != [];
    assert (a + b)[0] == a[0];
    assert (a + b)[1..] == a[1..] + b;
    if !Classified(a[0], video) {
      ScanExhausted(a[1..], b, video, budget);
    } else if budget - 1 > 0 {
      ScanExhausted(a[1..], b, video, budget - 1);
    }
  }

  /** The result is append-only: reading more packets can only extend it. */
  lemma ScanPrefix(a: seq<Packet>, b: seq<Packet>, video: int, budget: int)
    requires budget >= 1
    ensures Scan(a, video, budget) <= Scan(a + b, video, budget)
  {
    if ClassifiedCount(a, video) < budget {
      ScanAppend(a, b, video, budget);
    } else {
      ScanExhausted(a, b, video, budget);
    }
  }

  /** A packet that does not reach the keyframe test changes neither the
      budget nor the result, wherever it occurs in the trace. */
  lemma {:induction false} SkippedPacketIgnored(pre: seq<Packet>, p: Packet, post: seq<Packet>, video: int, budget: int)
    requires !Classified(p, video)
    ensures Scan(pre + [p] + post, video, budget) == Scan(pre + post, video, budget)
    decreases |pre|
  {
    if pre == [] {
      assert pre + [p] + post == [p] + post;
      assert ([p] + post)[1..] == post;
      assert pre + post == post;
    } else {
      var t1 := pre + [p] + post;
      var t2 := pre + post;
      assert t1[0] == pre[0] && t2[0] == pre[0];
      assert t1[1..] == pre[1..] + [p] + post;
      assert t2[1..] == pre[1..] + post;
      if !Classified(pre[0], video) {
        SkippedPacketIgnored(pre[1..], p, post, video, budget);
      } else {
        SkippedPacketIgnored(pre[1..], p, post, video, budget - 1);
      }
    }
  }

  /** A packet of another stream is dropped without charging the budget. */
  lemma ForeignPacketIgnored(pre: seq<Packet>, p: Packet, post: seq<Packet>, video: int)
    requires p.streamIndex != video
    ensures Scan(pre + [p] + post, video, MaxPackets) == Scan(pre + post, video, MaxPackets)
  {
    SkippedPacketIgnored(pre, p, post, video, MaxPackets);
  }

  /** A packet the decoder refused is skipped without charging the budget. */
  lemma FailedSendIgnored(pre: seq<Packet>, p: Packet, post: seq<Packet>, video: int)
    requires !p.sent
    ensures Scan(pre + [p] + post, video, MaxPackets) == Scan(pre + post, video, MaxPackets)
  {
    SkippedPacketIgnored(pre, p, post, video, MaxPackets);
  }

  /** A receive answering EAGAIN or EOF makes the loop go on to the next
      packet without charging the budget. */
  lemma DrainSignalIgnored(pre: seq<Packet>, p: Packet, post: seq<Packet>, video: int)
    requires p.receive == EAgain || p.receive == Eof
    ensures Scan(pre + [p] + post, video, MaxPackets) == Scan(pre + post, video, MaxPackets)
  {
    SkippedPacketIgnored(pre, p, post, video, MaxPackets);
  }

  /** Interleaved packets of other streams never affect the result. */
  lemma {:induction false} OtherStreamsIrrelevant(trace: seq<Packet>, video: int, budget: int)
    ensures Scan(trace, video, budget) == Scan(OnStream(trace, video), video, budget)
    decreases |trace|
  {
    if trace != [] {
      var rest := OnStream(trace[1..], video);
      if trace[0].streamIndex == video {
        assert OnStream(trace, video) == [trace[0]] + rest;
        assert ([trace[0]] + rest)[1..] == rest;
        OtherStreamsIrrelevant(trace[1..], video, budget);
        OtherStreamsIrrelevant(trace[1..], video, budget - 1);
      } else {
        assert OnStream(trace, video) == rest;
        OtherStreamsIrrelevant(trace[1..], video, budget);
      }
    }
  }

  /** When every packet is a classified keyframe, the result holds exactly
      the first `budget` of them (fewer if the trace is shorter), each pts
      cast to `int`, in read order. */
  lemma {:induction false} TruncatedToBudget(trace: seq<Packet>, video: int, budget: int)
    requires budget >= 1
    requires forall i :: 0 <= i < |trace| ==> Classified(trace[i], video) && trace[i].keyFrame == 1
    ensures |Scan(trace, video, budget)| == if |trace| < budget then |trace| else budget
    ensures forall i :: 0 <= i < |Scan(trace, video, budget)| ==>
              Scan(trace, video, budget)[i] == ToInt32(trace[i].pts)
    decreases |trace|
  {
    if trace != [] {
      assert Classified(trace[0], video) && trace[0].keyFrame == 1;
      if budget - 1 > 0 {
        var rest := trace[1..];
        assert forall i :: 0 <= i < |rest| ==> rest[i] == trace[i + 1];
        TruncatedToBudget(rest, video, budget - 1);
      }
    }
  }

  /** Where the scan stopped early, with the budget used up, the packets read
      so far already determine the result. */
  lemma ScanStoppedAt(trace: seq<Packet>, read: nat, video: int, budget: int)
    requires read <= |trace|
    requires ClassifiedCount(trace[..read], video) <= budget
    requires read < |trace| ==> 1 <= budget == ClassifiedCount(trace[..read], video)
    ensures Scan(trace, video, budget) == KeyTicks(trace[..read], video)
  {
    ScanWithinBudget(trace[..read], video, budget);
    if read < |trace| {
      assert trace == trace[..read] + trace[read..];
      ScanExhausted(trace[..read], trace[read..], video, budget);
    } else {
      assert trace[..read] == trace;
    }
  }

  /** The `while` loop of get_key_frames over the packets returned by the
      demuxer. Reading stops at the end of `trace` (av_read_frame failing)
      or when the budget counter reaches 0; `read` is the number of packets
      read. */
  method ScanKeyFrames(video: int, trace: seq<Packet>) returns (startTicks: seq<int32>, read: nat)
    ensures startTicks == Scan(trace, video, MaxPackets)
    ensures |startTicks| <= MaxPackets
    ensures read <= |trace|
    ensures ClassifiedCount(trace[..read], video) <= MaxPackets
    ensures read < |trace| ==> ClassifiedCount(trace[..read], video) == MaxPackets
    ensures read < |trace| ==> Classified(trace[read - 1], video)
    ensures ClassifiedCount(trace[..read], video) == MaxPackets ==> 0 < read && Classified(trace[read - 1], video)
    ensures startTicks == KeyTicks(trace[..read], video)
  {
    var budget := MaxPackets;
    startTicks, read := [], 0;
    while read < |trace|
      invariant read <= |trace|
      invariant 1 <= budget <= MaxPackets
      invariant budget == MaxPackets - ClassifiedCount(trace[..read], video)
      invariant Scan(trace, video, MaxPackets) == startTicks + Scan(trace[read..], video, budget)
    {
      var packet := trace[read];
      ClassifiedCountAppend(trace[..read], [packet], video);
      assert trace[..read + 1] == trace[..read] + [packet];
      assert trace[read..][1..] == trace[read + 1..];
      read := read + 1;
      if packet.streamIndex == video {
        if packet.sent {
          if packet.receive == EAgain || packet.receive == Eof {
            continue;
          }
          if packet.keyFrame == 1 {
            startTicks := startTicks + [ToInt32(packet.pts)];
          }
          budget := budget - 1;
          if budget <= 0 {
            break;
          }
        }
      }
    }
    assert read == |trace| ==> trace[read..] == [];
    ScanBounded(trace, video, MaxPackets);
    ScanStoppedAt(trace, read, video, MaxPackets);
  }
}
