/**
 The edge interrupt handler as a pure state-transition function. The handler's
 call-persistent counters, the timing buffer and the published result are held
 in an explicit state record; the protocol number the handler queues for the
 consumer is the step's output.
 */
module Receiver {
  import opened Options
  import opened Protocols
  import opened Matcher

  /** Durations above this many microseconds are gaps between transmissions. */
  const SeparationLimit: nat := 4300

  /** A gap repeats the previous one when their durations differ by less than this. */
  const RepeatGapTolerance: nat := 200

  /**
   The receiver's state. `timings` is the fixed-capacity buffer (its length is
   the capacity), `changeCount` the number of samples of the current window,
   `repeatCount` the number of repeated gaps seen since the last decode pass,
   and `received` the last published frame.
   */
  datatype ReceiverState = ReceiverState(
    timings: seq<nat>,
    changeCount: nat,
    repeatCount: nat,
    received: Frame)

  /**
   What holds of every reachable state: a non-empty buffer, a window inside it,
   at most one pending repeated gap, and no pending gap before the first sample.
   */
  predicate Valid(s: ReceiverState)
  {
    && |s.timings| > 0
    && s.changeCount <= |s.timings|
    && s.repeatCount <= 1
    && (s.changeCount == 0 ==> s.repeatCount == 0)
  }

  /** The power-on state: zeroed buffer and counters, nothing published. */
  function Init(capacity: nat): (s: ReceiverState)
    requires capacity > 0
    ensures Valid(s)
    ensures |s.timings| == capacity && s.changeCount == 0 && s.repeatCount == 0
    ensures forall i :: 0 <= i < capacity ==> s.timings[i] == 0
    ensures s.received.value == 0
  {
    ReceiverState(seq(capacity, _ => 0), 0, 0, Frame(0, 0, 0, 0))
  }

  /** A duration long enough to be a gap between transmissions. */
  predicate IsGap(duration: nat)
  {
    duration > SeparationLimit
  }

  /** A gap close in length to the one that opened the current window. */
  predicate IsRepeatGap(s: ReceiverState, duration: nat)
    requires |s.timings| > 0
  {
    IsGap(duration) && Diff(duration, s.timings[0]) < RepeatGapTolerance
  }

  /**
   Tries protocols p, p + 1, ..., NumProto in order and yields the frame of the
   first that matches.
   */
  function FirstMatchFrom(timings: seq<nat>, changeCount: nat, p: nat): (r: Option<Frame>)
    requires 1 <= p <= NumProto + 1
    requires 1 <= changeCount <= |timings|
    ensures r.Some? ==> p <= r.value.protocol <= NumProto
    ensures r.Some? ==> ReceiveProtocol(r.value.protocol, timings, changeCount) == r
    ensures r.Some? ==> forall q :: p <= q < r.value.protocol ==> ReceiveProtocol(q, timings, changeCount).None?
    ensures r.None? <==> forall q :: p <= q <= NumProto ==> ReceiveProtocol(q, timings, changeCount).None?
    decreases NumProto + 1 - p
  {
    if p > NumProto then None
    else
      match ReceiveProtocol(p, timings, changeCount)
      case Some(f) => Some(f)
      case None => FirstMatchFrom(timings, changeCount, p + 1)
  }

  /** The decode pass: protocols 1 to 6 in order, first success wins. */
  function FirstMatch(timings: seq<nat>, changeCount: nat): (r: Option<Frame>)
    requires 1 <= changeCount <= |timings|
    ensures r.Some? ==> IsProtocolNumber(r.value.protocol)
    ensures r.Some? ==> ReceiveProtocol(r.value.protocol, timings, changeCount) == r
    ensures r.Some? ==> forall q :: 1 <= q < r.value.protocol ==> ReceiveProtocol(q, timings, changeCount).None?
    ensures r.None? <==> forall q :: IsProtocolNumber(q) ==> ReceiveProtocol(q, timings, changeCount).None?
  {
    FirstMatchFrom(timings, changeCount, 1)
  }

  /**
   One edge of the input pin, `duration` microseconds after the previous one.
   A gap ends the window; a repeated gap counts towards a decode pass, which
   runs on the second one and publishes the first matching frame; a full
   buffer silently restarts the window; finally the duration is appended.
   */
  function HandleEdge(s: ReceiverState, duration: nat): (r: (ReceiverState, Option<nat>))
    requires Valid(s)
    ensures Valid(r.0) && |r.0.timings| == |s.timings|
    ensures 1 <= r.0.changeCount
    // the duration is stored at the old write position, or at 0 after a gap or an overflow
    ensures !IsGap(duration) && s.changeCount < |s.timings| ==>
              r.0.changeCount == s.changeCount + 1 && r.0.timings == s.timings[s.changeCount := duration]
    ensures IsGap(duration) || s.changeCount == |s.timings| ==>
              r.0.changeCount == 1 && r.0.timings == s.timings[0 := duration]
    // repeat counting
    ensures IsRepeatGap(s, duration) ==> r.0.repeatCount == 1 - s.repeatCount
    ensures IsGap(duration) && !IsRepeatGap(s, duration) ==> r.0.repeatCount == s.repeatCount
    ensures !IsGap(duration) && s.changeCount < |s.timings| ==> r.0.repeatCount == s.repeatCount
    ensures !IsGap(duration) && s.changeCount == |s.timings| ==> r.0.repeatCount == 0
    // a decode pass runs only on the second repeated gap and reports its first match
    ensures r.1.Some? <==>
              IsRepeatGap(s, duration) && s.repeatCount == 1 && FirstMatch(s.timings, s.changeCount).Some?
    ensures r.1.Some? ==> r.1.value == r.0.received.protocol
    ensures r.1.Some? ==> Some(r.0.received) == FirstMatch(s.timings, s.changeCount)
    ensures r.1.None? ==> r.0.received == s.received
  {
    var repeated := IsRepeatGap(s, duration);
    var repeats := if repeated then s.repeatCount + 1 else s.repeatCount;
    var found := if repeated && repeats == 2 then FirstMatch(s.timings, s.changeCount) else None;
    var repeats' := if repeated && repeats == 2 then 0 else repeats;
    var count := if IsGap(duration) then 0 else s.changeCount;
    var overflow := count >= |s.timings|;
    var count' := if overflow then 0 else count;
    var repeats'' := if overflow then 0 else repeats';
    var received := if found.Some? then found.value else s.received;
    (ReceiverState(s.timings[count' := duration], count' + 1, repeats'', received),
     if found.Some? then Some(found.value.protocol) else None)
  }

  /** The queue sends of one step: its protocol number, if it produced one. */
  function Emitted(out: Option<nat>): seq<nat>
  {
    if out.Some? then [out.value] else []
  }

  /** The state after feeding a sequence of edge durations to the handler. */
  function Final(s: ReceiverState, durations: seq<nat>): (r: ReceiverState)
    requires Valid(s)
    ensures Valid(r) && |r.timings| == |s.timings|
    decreases |durations|
  {
    if |durations| == 0 then s
    else Final(HandleEdge(s, durations[0]).0, durations[1..])
  }

  /** The protocol numbers queued while feeding a sequence of edge durations, in order. */
  function Queued(s: ReceiverState, durations: seq<nat>): seq<nat>
    requires Valid(s)
    decreases |durations|
  {
    if |durations| == 0 then []
    else
      var step := HandleEdge(s, durations[0]);
      Emitted(step.1) + Queued(step.0, durations[1..])
  }

  /** The consumer-side test for a published value: non-zero means available. */
  predicate Available(s: ReceiverState)
  {
    s.received.value != 0
  }

  /** Clears the published value so that it no longer reads as available. */
  function ResetAvailable(s: ReceiverState): (r: ReceiverState)
    ensures !Available(r)
    ensures r.received.bitLength == s.received.bitLength
    ensures r.received.delay == s.received.delay
    ensures r.received.protocol == s.received.protocol
    ensures r.timings == s.timings && r.changeCount == s.changeCount && r.repeatCount == s.repeatCount
  {
    s.(received := s.received.(value := 0))
  }
}
