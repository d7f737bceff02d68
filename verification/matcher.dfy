/**
 The protocol matcher: tests one timing template against the samples captured
 since the last gap and, on success, yields the decoded frame.
 */
module Matcher {
  import opened Options
  import opened Binary
  import opened Protocols

  /** Allowed deviation from a nominal duration, in percent of the delay unit. */
  const ReceiveTolerance: nat := 60

  /** Windows with at most this many samples are treated as noise. */
  const MinChangeCount: nat := 7

  /** A decoded transmission: code value, bit count, delay unit and protocol number. */
  datatype Frame = Frame(value: nat, bitLength: nat, delay: nat, protocol: nat)

  /** Absolute difference of two samples. */
  function Diff(a: int, b: int): (r: nat)
    ensures r == a - b || r == b - a
  {
    if a >= b then a - b else b - a
  }

  /** The delay unit derived from the first sample, and the tolerance derived from it. */
  datatype Calibration = Calibration(pro: Protocol, delay: nat, tolerance: nat)

  /** Integer tolerance for a delay unit: delay * 60 / 100, rounded down. */
  function DelayTolerance(delay: nat): nat
  {
    delay * ReceiveTolerance / 100
  }

  /** Calibrates a template against the first captured sample (the long sync duration). */
  function Calibrate(pro: Protocol, firstTiming: nat): (c: Calibration)
    requires SyncLengthInPulses(pro) > 0
  {
    var delay := firstTiming / SyncLengthInPulses(pro);
    Calibration(pro, delay, DelayTolerance(delay))
  }

  /** A sample lies strictly within tolerance of `factor` delay units. */
  predicate Matches(c: Calibration, sample: nat, factor: nat)
  {
    Diff(sample, c.delay * factor) < c.tolerance
  }

  /** Both samples of a pair lie within tolerance of an encoding. */
  predicate PairMatches(c: Calibration, high: nat, low: nat, enc: HighLow)
  {
    Matches(c, high, enc.high) && Matches(c, low, enc.low)
  }

  /**
   Decodes one (high, low) pair into a bit. The 0 encoding is tried first, so a
   pair within tolerance of both encodings is a 0.
   */
  function ClassifyPair(c: Calibration, high: nat, low: nat): (r: Option<bool>)
    ensures r == Some(false) <==> PairMatches(c, high, low, c.pro.zero)
    ensures r == Some(true) <==> !PairMatches(c, high, low, c.pro.zero) && PairMatches(c, high, low, c.pro.one)
    ensures r == None <==> !PairMatches(c, high, low, c.pro.zero) && !PairMatches(c, high, low, c.pro.one)
  {
    if PairMatches(c, high, low, c.pro.zero) then Some(false)
    else if PairMatches(c, high, low, c.pro.one) then Some(true)
    else None
  }

  /**
   The decoding loop: walks the pairs starting at sample i while i < changeCount - 1,
   shifting each decoded bit into `code`, and gives up on the first pair that is
   neither a 0 nor a 1.
   */
  function DecodeLoop(c: Calibration, timings: seq<nat>, changeCount: nat, i: nat, code: nat): Option<nat>
    requires 1 <= changeCount <= |timings|
    decreases changeCount - i
  {
    if i < changeCount - 1 then
      match ClassifyPair(c, timings[i], timings[i + 1])
      case None => None
      case Some(bit) => DecodeLoop(c, timings, changeCount, i + 2, 2 * code + DigitValue(bit, true))
    else
      Some(code)
  }

  /**
   Matches protocol number p against the first changeCount samples. The loop
   runs before the length check, but a failed loop and a short window both
   yield no frame.
   */
  function ReceiveProtocol(p: nat, timings: seq<nat>, changeCount: nat): (r: Option<Frame>)
    requires IsProtocolNumber(p)
    requires 1 <= changeCount <= |timings|
    ensures changeCount <= MinChangeCount ==> r == None
    ensures r.Some? ==> r.value.protocol == p
    ensures r.Some? ==> r.value.bitLength == (changeCount - 1) / 2
    ensures r.Some? ==> r.value.delay == timings[0] / SyncLengthInPulses(GetProtocol(p))
  {
    var pro := GetProtocol(p);
    var c := Calibrate(pro, timings[0]);
    match DecodeLoop(c, timings, changeCount, FirstDataTiming(pro), 0)
    case None => None
    case Some(code) =>
      if changeCount > MinChangeCount then Some(Frame(code, (changeCount - 1) / 2, c.delay, p))
      else None
  }

  // ---------------------------------------------------------------------------
  // Reference description of a match, pair by pair.

  /** Number of (high, low) pairs the loop visits for a window of changeCount samples. */
  function NumPairs(pro: Protocol, changeCount: nat): nat
  {
    if changeCount >= FirstDataTiming(pro) then (changeCount - FirstDataTiming(pro)) / 2 else 0
  }

  /** Index of the high sample of pair k. */
  function PairStart(pro: Protocol, k: nat): nat
  {
    FirstDataTiming(pro) + 2 * k
  }

  /** The bit (if any) that pair k of the window decodes to. */
  function PairBit(c: Calibration, timings: seq<nat>, k: nat): Option<bool>
    requires PairStart(c.pro, k) + 1 < |timings|
  {
    ClassifyPair(c, timings[PairStart(c.pro, k)], timings[PairStart(c.pro, k) + 1])
  }

  /** Every pair k < n decodes to a bit. */
  ghost predicate PairsMatchUpTo(c: Calibration, timings: seq<nat>, n: nat)
    requires n == 0 || PairStart(c.pro, n - 1) + 1 < |timings|
  {
    forall k :: 0 <= k < n ==> PairBit(c, timings, k).Some?
  }

  /** Every pair of the window decodes to a bit. */
  ghost predicate AllPairsMatch(c: Calibration, timings: seq<nat>, changeCount: nat)
    requires changeCount <= |timings|
  {
    PairsMatchUpTo(c, timings, NumPairs(c.pro, changeCount))
  }

  /** The bits of the first n pairs, in order of capture. */
  ghost function DecodedBits(c: Calibration, timings: seq<nat>, n: nat): (bits: seq<bool>)
    requires n == 0 || PairStart(c.pro, n - 1) + 1 < |timings|
    requires PairsMatchUpTo(c, timings, n)
    ensures |bits| == n
    ensures forall k :: 0 <= k < n ==> PairBit(c, timings, k) == Some(bits[k])
  {
    if n == 0 then [] else DecodedBits(c, timings, n - 1) + [PairBit(c, timings, n - 1).value]
  }
}
