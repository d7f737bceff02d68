/**
 Properties of the edge handler over whole edge streams: runs compose, plain
 samples fill the window, a single gap never decodes, and a transmission sent
 twice after its gap is decoded on the third gap.
 */
module ReceiverProperties {
  import opened Options
  import opened Binary
  import opened Protocols
  import opened Matcher
  import opened MatcherProperties
  import opened Receiver

  /**
   Every value an edge run queues is a protocol number, and a run queues no
   more values than it is fed edges.
   */
  lemma {:induction false} QueuedProtocolNumbers(s: ReceiverState, durations: seq<nat>)
    requires Valid(s)
    ensures forall i :: 0 <= i < |Queued(s, durations)| ==> IsProtocolNumber(Queued(s, durations)[i])
    ensures |Queued(s, durations)| <= |durations|
    decreases |durations|
  {
    if |durations| > 0 {
      var step := HandleEdge(s, durations[0]);
      QueuedProtocolNumbers(step.0, durations[1..]);
      assert step.1.Some? ==> IsProtocolNumber(step.1.value);
    }
  }

  /** Running two streams back to back ends where running their concatenation ends. */
  lemma {:induction false} FinalConcat(s: ReceiverState, a: seq<nat>, b: seq<nat>)
    requires Valid(s)
    ensures Final(s, a + b) == Final(Final(s, a), b)
    decreases |a|
  {
    if |a| == 0 {
      assert a + b == b;
    } else {
      var next := HandleEdge(s, a[0]).0;
      assert (a + b)[0] == a[0];
      assert (a + b)[1..] == a[1..] + b;
      FinalConcat(next, a[1..], b);
    }
  }

  /** The values queued by a concatenation are those of its first part, then those of its second. */
  lemma {:induction false} QueuedConcat(s: ReceiverState, a: seq<nat>, b: seq<nat>)
    requires Valid(s)
    ensures Queued(s, a + b) == Queued(s, a) + Queued(Final(s, a), b)
    decreases |a|
  {
    if |a| == 0 {
      assert a + b == b;
      assert Queued(s, a) == [];
    } else {
      var step := HandleEdge(s, a[0]);
      var head := Emitted(step.1);
      assert (a + b)[0] == a[0];
      assert (a + b)[1..] == a[1..] + b;
      QueuedConcat(step.0, a[1..], b);
      var mid := Queued(step.0, a[1..]);
      var tail := Queued(Final(step.0, a[1..]), b);
      assert Queued(s, a + b) == head + (mid + tail);
      assert head + (mid + tail) == (head + mid) + tail;
    }
  }

  /** A single edge run is one handler step. */
  lemma RunOne(s: ReceiverState, d: nat)
    requires Valid(s)
    ensures Final(s, [d]) == HandleEdge(s, d).0
    ensures Queued(s, [d]) == Emitted(HandleEdge(s, d).1)
  {
    assert [d][1..] == [];
  }

  /**
   A sample that is not a gap, with room left in the buffer, is stored at the
   write position; nothing else changes and nothing is queued.
   */
  lemma AppendSample(s: ReceiverState, d: nat)
    requires Valid(s)
    requires !IsGap(d) && s.changeCount < |s.timings|
    ensures HandleEdge(s, d) == (s.(timings := s.timings[s.changeCount := d], changeCount := s.changeCount + 1), None)
  {
  }

  /** Writing x and then rest after the first n samples extends that prefix by [x] + rest. */
  lemma PrefixGrows(t0: seq<nat>, t1: seq<nat>, t2: seq<nat>, n: nat, x: nat, rest: seq<nat>)
    requires n <= |t0| && n + 1 + |rest| <= |t1| && n + 1 + |rest| <= |t2|
    requires t1[..n + 1] == t0[..n] + [x]
    requires t2[..n + 1 + |rest|] == t1[..n + 1] + rest
    ensures t2[..n + 1 + |rest|] == t0[..n] + ([x] + rest)
  {
    assert (t0[..n] + [x]) + rest == t0[..n] + ([x] + rest);
  }

  /**
   Samples that are not gaps, and that fit in the buffer, are appended to the
   window in order; nothing is queued and the repeat counter and the
   published frame are untouched.
   */
  lemma {:induction false} FeedSamples(s: ReceiverState, samples: seq<nat>) returns (s': ReceiverState)
    requires Valid(s)
    requires forall k :: 0 <= k < |samples| ==> !IsGap(samples[k])
    requires s.changeCount + |samples| <= |s.timings|
    ensures Final(s, samples) == s' && Queued(s, samples) == []
    ensures Valid(s') && |s'.timings| == |s.timings|
    ensures s'.changeCount == s.changeCount + |samples|
    ensures s'.timings[..s.changeCount + |samples|] == s.timings[..s.changeCount] + samples
    ensures s'.repeatCount == s.repeatCount && s'.received == s.received
    decreases |samples|
  {
    if |samples| == 0 {
      s' := s;
      assert s.timings[..s.changeCount] + samples == s.timings[..s.changeCount];
    } else {
      var n := s.changeCount;
      AppendSample(s, samples[0]);
      var s1 := s.(timings := s.timings[n := samples[0]], changeCount := n + 1);
      var rest := samples[1..];
      s' := FeedSamples(s1, rest);
      assert Final(s, samples) == Final(s1, rest);
      assert Queued(s, samples) == [] + [];
      assert s1.timings[..n + 1] == s.timings[..n] + [samples[0]];
      assert [samples[0]] + rest == samples;
      PrefixGrows(s.timings, s1.timings, s'.timings, n, samples[0], rest);
    }
  }

  /** The decode pass depends only on the samples of the window. */
  lemma {:induction false} FirstMatchFromReadsWindowOnly(t1: seq<nat>, t2: seq<nat>, changeCount: nat, p: nat)
    requires 1 <= p <= NumProto + 1
    requires 1 <= changeCount <= |t1| && changeCount <= |t2|
    requires t1[..changeCount] == t2[..changeCount]
    ensures FirstMatchFrom(t1, changeCount, p) == FirstMatchFrom(t2, changeCount, p)
    decreases NumProto + 1 - p
  {
    if p <= NumProto {
      ReceiveProtocolReadsWindowOnly(p, t1, t2, changeCount);
      FirstMatchFromReadsWindowOnly(t1, t2, changeCount, p + 1);
    }
  }

  /**
   The published value reads as available after an edge exactly when the edge
   ran a decode pass whose frame has a non-zero value, or when no decode pass
   published anything and it was available before.
   */
  lemma AvailabilityAcrossEdge(s: ReceiverState, duration: nat)
    requires Valid(s)
    ensures var r := HandleEdge(s, duration);
            Available(r.0) <==>
              if r.1.Some? then FirstMatch(s.timings, s.changeCount).value.value != 0 else Available(s)
  {
  }

  /**
   A gap that does not repeat the previous one (or the first gap after power
   on) never starts a decode pass, and neither does a repeated gap while no
   earlier repeat is pending: a decode needs two consecutive repeated gaps.
   */
  lemma SingleGapNeverDecodes(s: ReceiverState, duration: nat)
    requires Valid(s)
    requires s.repeatCount == 0 || !IsRepeatGap(s, duration)
    ensures HandleEdge(s, duration).1 == None
    ensures HandleEdge(s, duration).0.received == s.received
  {
  }

  /**
   A transmission (the samples `frame`, none of them a gap) that is sent twice
   and followed by a third gap, each gap within the repeat tolerance of the one
   before, is decoded exactly once, on the third gap, to the first protocol
   that matches the second window `[gap2] + frame`; from power-on, nothing is
   queued before.
   */
  lemma RepeatedTransmissionDecodes(capacity: nat, gap1: nat, gap2: nat, gap3: nat, frame: seq<nat>)
    requires 1 + |frame| <= capacity
    requires IsGap(gap1) && IsGap(gap2) && IsGap(gap3)
    requires Diff(gap2, gap1) < RepeatGapTolerance && Diff(gap3, gap2) < RepeatGapTolerance
    requires forall k :: 0 <= k < |frame| ==> !IsGap(frame[k])
    ensures var stream := ([gap1] + frame) + ([gap2] + frame) + [gap3];
            var m := FirstMatch([gap2] + frame, 1 + |frame|);
            && Queued(Init(capacity), stream) == (if m.Some? then [m.value.protocol] else [])
            && Final(Init(capacity), stream).received == (if m.Some? then m.value else Init(capacity).received)
  {
    var window := [gap2] + frame;
    var twice := ([gap1] + frame) + window;
    var s0 := Init(capacity);
    var s4 := TwoTransmissions(capacity, gap1, gap2, frame);
    var last := HandleEdge(s4, gap3);
    RunOne(s4, gap3);
    DecodePass(s4, window, gap3);
    FinalConcat(s0, twice, [gap3]);
    QueuedConcat(s0, twice, [gap3]);
    assert Queued(s0, twice + [gap3]) == [] + Emitted(last.1);
  }

  /**
   The same transmission sent twice from power-on, after two gaps within the
   repeat tolerance of each other: the second gap repeats the first, so one
   repeat is pending, the window holds the second transmission, and nothing
   has been queued.
   */
  lemma TwoTransmissions(capacity: nat, gap1: nat, gap2: nat, frame: seq<nat>) returns (s4: ReceiverState)
    requires 1 + |frame| <= capacity
    requires IsGap(gap1) && IsGap(gap2) && Diff(gap2, gap1) < RepeatGapTolerance
    requires forall k :: 0 <= k < |frame| ==> !IsGap(frame[k])
    ensures var twice := ([gap1] + frame) + ([gap2] + frame);
            Final(Init(capacity), twice) == s4 && Queued(Init(capacity), twice) == []
    ensures Valid(s4) && s4.changeCount == 1 + |frame|
    ensures s4.timings[..1 + |frame|] == [gap2] + frame
    ensures s4.repeatCount == 1
    ensures s4.received == Init(capacity).received
  {
    var s0 := Init(capacity);
    assert !IsRepeatGap(s0, gap1);
    var s2 := TransmissionAfterGap(s0, gap1, frame);
    assert s2.timings[0] == ([gap1] + frame)[0];
    assert IsRepeatGap(s2, gap2);
    s4 := TransmissionAfterGap(s2, gap2, frame);
    FinalConcat(s0, [gap1] + frame, [gap2] + frame);
    QueuedConcat(s0, [gap1] + frame, [gap2] + frame);
  }

  /**
   One transmission: a gap that does not complete a repeat pair opens a new
   window, which the following data samples fill; nothing is queued.
   */
  lemma TransmissionAfterGap(s: ReceiverState, gap: nat, frame: seq<nat>) returns (s': ReceiverState)
    requires Valid(s)
    requires IsGap(gap)
    requires !IsRepeatGap(s, gap) || s.repeatCount == 0
    requires forall k :: 0 <= k < |frame| ==> !IsGap(frame[k])
    requires 1 + |frame| <= |s.timings|
    ensures Final(s, [gap] + frame) == s' && Queued(s, [gap] + frame) == []
    ensures Valid(s') && |s'.timings| == |s.timings|
    ensures s'.changeCount == 1 + |frame|
    ensures s'.timings[..1 + |frame|] == [gap] + frame
    ensures s'.repeatCount == (if IsRepeatGap(s, gap) then 1 else s.repeatCount)
    ensures s'.received == s.received
  {
    RunOne(s, gap);
    var s1 := HandleEdge(s, gap).0;
    s' := FillWindow(s1, gap, frame);
    FinalConcat(s, [gap], frame);
    QueuedConcat(s, [gap], frame);
    assert Queued(s, [gap] + frame) == [] + [];
  }

  /**
   A second repeated gap, one within the repeat tolerance of the window's
   first sample, runs the decode pass over that window and queues the first
   matching protocol, if any.
   */
  lemma DecodePass(s: ReceiverState, window: seq<nat>, gap: nat)
    requires Valid(s)
    requires 0 < |window| == s.changeCount
    requires s.timings[..|window|] == window
    requires s.repeatCount == 1
    requires IsGap(gap) && Diff(gap, window[0]) < RepeatGapTolerance
    ensures var m := FirstMatch(window, |window|);
            && HandleEdge(s, gap).1 == (if m.Some? then Some(m.value.protocol) else None)
            && (m.Some? ==> HandleEdge(s, gap).0.received == m.value)
            && (m.None? ==> HandleEdge(s, gap).0.received == s.received)
    ensures var s' := HandleEdge(s, gap).0;
            s'.changeCount == 1 && s'.timings[0] == gap && s'.repeatCount == 0
  {
    assert s.timings[0] == window[0];
    assert window[..|window|] == window;
    FirstMatchFromReadsWindowOnly(s.timings, window, |window|, 1);
  }

  /**
   After a gap has opened a window, the data samples of one transmission fill
   it: the window then holds exactly the gap and the data.
   */
  lemma FillWindow(s: ReceiverState, gap: nat, frame: seq<nat>) returns (s': ReceiverState)
    requires Valid(s)
    requires s.changeCount == 1 && s.timings[0] == gap
    requires forall k :: 0 <= k < |frame| ==> !IsGap(frame[k])
    requires 1 + |frame| <= |s.timings|
    ensures Final(s, frame) == s' && Queued(s, frame) == []
    ensures Valid(s') && |s'.timings| == |s.timings|
    ensures s'.changeCount == 1 + |frame|
    ensures s'.timings[..1 + |frame|] == [gap] + frame
    ensures s'.timings[0] == gap
    ensures s'.repeatCount == s.repeatCount && s'.received == s.received
  {
    s' := FeedSamples(s, frame);
    assert s.timings[..1] == [gap];
    assert s'.timings[0] == s'.timings[..1 + |frame|][0];
  }

  /**
   What the receiver captures of one protocol 1 transmission at delay unit d:
   the long sync gap, the data pairs, and the short sync pulse sent just
   before the next gap.
   */
  function Protocol1Capture(d: nat, bits: seq<bool>): (t: seq<nat>)
    ensures |t| == 2 * |bits| + 2
  {
    NominalTimings(GetProtocol(1), d, bits) + [d * GetProtocol(1).syncFactor.high]
  }

  /**
   The worked scenario end to end: protocol 1 sent twice at a delay unit d for
   which the sync gap exceeds the separation limit and no data sample does; the
   receiver queues protocol number 1 once and publishes the encoded pattern.
   */
  lemma Protocol1EndToEnd(capacity: nat, d: nat, bits: seq<bool>)
    requires 139 <= d <= 1433
    requires |bits| >= 4
    requires capacity >= 2 * |bits| + 2
    ensures var window := Protocol1Capture(d, bits);
            var stream := window + window + [window[0]];
            && Queued(Init(capacity), stream) == [1]
            && Final(Init(capacity), stream).received == Frame(MsbValue(bits, true), |bits|, d, 1)
  {
    var window := Protocol1Capture(d, bits);
    var frame := Protocol1WindowShape(d, bits);
    Protocol1WinsDecodePass(d, bits);
    RepeatedTransmissionDecodes(capacity, window[0], window[0], window[0], frame);
  }

  /** A protocol 1 capture is its sync gap followed by samples that are not gaps. */
  lemma Protocol1WindowShape(d: nat, bits: seq<bool>) returns (frame: seq<nat>)
    requires 139 <= d <= 1433
    ensures var window := Protocol1Capture(d, bits);
            && window == [window[0]] + frame
            && IsGap(window[0])
            && (forall k :: 0 <= k < |frame| ==> !IsGap(frame[k]))
  {
    var pro := GetProtocol(1);
    var nominal := NominalTimings(pro, d, bits);
    var window := Protocol1Capture(d, bits);
    assert SyncLengthInPulses(pro) == 31 && !pro.invertedSignal;
    assert SyncTimings(pro, d) == [d * 31];
    frame := window[1..];
    assert window[0] == d * 31;
    forall k | 0 <= k < |frame|
      ensures !IsGap(frame[k])
    {
      if k < 2 * |bits| {
        assert frame[k] == nominal[k + 1] == NominalSample(pro, d, bits, k);
      } else {
        assert frame[k] == d;
      }
    }
  }

  /** Protocol 1 is tried first, so its captured window is decoded as protocol 1. */
  lemma Protocol1WinsDecodePass(d: nat, bits: seq<bool>)
    requires d >= 2
    requires |bits| >= 4
    ensures var window := Protocol1Capture(d, bits);
            FirstMatch(window, |window|) == Some(Frame(MsbValue(bits, true), |bits|, d, 1))
  {
    NominalRoundTripWithTail(1, d, bits, d * GetProtocol(1).syncFactor.high);
  }
}
