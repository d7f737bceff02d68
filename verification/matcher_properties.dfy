/**
 Properties of the protocol matcher: the decoding loop against the pair-by-pair
 reference description, the strict tolerance, and the round trip from nominal
 timings back to the bit pattern they encode.
 */
module MatcherProperties {
  import opened Options
  import opened Binary
  import opened Protocols
  import opened Matcher

  /** One iteration of the decoding loop at a pair inside the window. */
  lemma DecodeLoopStep(c: Calibration, timings: seq<nat>, changeCount: nat, j: nat, code: nat)
    requires 1 <= changeCount <= |timings|
    requires j < NumPairs(c.pro, changeCount)
    ensures PairBit(c, timings, j).None? ==> DecodeLoop(c, timings, changeCount, PairStart(c.pro, j), code) == None
    ensures PairBit(c, timings, j).Some? ==>
              DecodeLoop(c, timings, changeCount, PairStart(c.pro, j), code)
              == DecodeLoop(c, timings, changeCount, PairStart(c.pro, j + 1),
                            2 * code + DigitValue(PairBit(c, timings, j).value, true))
  {
    assert PairStart(c.pro, j) < changeCount - 1;
    assert PairStart(c.pro, j + 1) == PairStart(c.pro, j) + 2;
  }

  /** The decoding loop leaves the window once every pair has been visited. */
  lemma DecodeLoopExit(c: Calibration, timings: seq<nat>, changeCount: nat, code: nat)
    requires 1 <= changeCount <= |timings|
    ensures DecodeLoop(c, timings, changeCount, PairStart(c.pro, NumPairs(c.pro, changeCount)), code) == Some(code)
  {
    assert !(PairStart(c.pro, NumPairs(c.pro, changeCount)) < changeCount - 1);
  }

  /** The code of j + 1 decoded pairs is the code of j pairs shifted, plus bit j. */
  lemma DecodedBitsStep(c: Calibration, timings: seq<nat>, j: nat)
    requires PairStart(c.pro, j) + 1 < |timings|
    requires PairsMatchUpTo(c, timings, j + 1)
    ensures MsbValue(DecodedBits(c, timings, j + 1), true)
            == 2 * MsbValue(DecodedBits(c, timings, j), true) + DigitValue(PairBit(c, timings, j).value, true)
  {
    assert DecodedBits(c, timings, j + 1) == DecodedBits(c, timings, j) + [PairBit(c, timings, j).value];
    MsbValueAppend(DecodedBits(c, timings, j), PairBit(c, timings, j).value, true);
  }

  /**
   Loop invariant of the decoding loop: entered at pair j with the code of the
   first j pairs, it succeeds exactly when every pair of the window decodes, and
   then yields the code of all the pairs.
   */
  lemma {:induction false} DecodeLoopInvariant(c: Calibration, timings: seq<nat>, changeCount: nat, j: nat)
    requires 1 <= changeCount <= |timings|
    requires j <= NumPairs(c.pro, changeCount)
    requires PairsMatchUpTo(c, timings, j)
    ensures DecodeLoop(c, timings, changeCount, PairStart(c.pro, j), MsbValue(DecodedBits(c, timings, j), true)).Some?
            <==> AllPairsMatch(c, timings, changeCount)
    ensures AllPairsMatch(c, timings, changeCount) ==>
              DecodeLoop(c, timings, changeCount, PairStart(c.pro, j), MsbValue(DecodedBits(c, timings, j), true))
              == Some(MsbValue(DecodedBits(c, timings, NumPairs(c.pro, changeCount)), true))
    decreases NumPairs(c.pro, changeCount) - j
  {
    var n := NumPairs(c.pro, changeCount);
    var code := MsbValue(DecodedBits(c, timings, j), true);
    if j == n {
      DecodeLoopExit(c, timings, changeCount, code);
      assert AllPairsMatch(c, timings, changeCount);
    } else {
      DecodeLoopStep(c, timings, changeCount, j, code);
      if PairBit(c, timings, j).None? {
        assert DecodeLoop(c, timings, changeCount, PairStart(c.pro, j), code) == None;
        assert !PairsMatchUpTo(c, timings, n);
      } else {
        var code' := 2 * code + DigitValue(PairBit(c, timings, j).value, true);
        assert PairsMatchUpTo(c, timings, j + 1);
        DecodedBitsStep(c, timings, j);
        assert MsbValue(DecodedBits(c, timings, j + 1), true) == code';
        DecodeLoopInvariant(c, timings, changeCount, j + 1);
        assert DecodeLoop(c, timings, changeCount, PairStart(c.pro, j), code)
            == DecodeLoop(c, timings, changeCount, PairStart(c.pro, j + 1), code');
      }
    }
  }

  /**
   Characterisation of receiveProtocol: protocol p matches the window exactly
   when the window is longer than 7 samples and every pair decodes to a bit;
   the frame then carries the bits read most significant first, the bit length
   (changeCount - 1) / 2, the derived delay unit and p.
   */
  lemma ReceiveProtocolCorrect(p: nat, timings: seq<nat>, changeCount: nat)
    requires IsProtocolNumber(p)
    requires 1 <= changeCount <= |timings|
    ensures ReceiveProtocol(p, timings, changeCount).Some?
            <==> changeCount > MinChangeCount && AllPairsMatch(Calibrate(GetProtocol(p), timings[0]), timings, changeCount)
    ensures ReceiveProtocol(p, timings, changeCount).Some? ==>
              var c := Calibrate(GetProtocol(p), timings[0]);
              ReceiveProtocol(p, timings, changeCount)
              == Some(Frame(MsbValue(DecodedBits(c, timings, NumPairs(c.pro, changeCount)), true),
                            (changeCount - 1) / 2, c.delay, p))
  {
    var c := Calibrate(GetProtocol(p), timings[0]);
    assert DecodedBits(c, timings, 0) == [];
    DecodeLoopInvariant(c, timings, changeCount, 0);
  }

  /** The decoding loop reads nothing beyond the first changeCount samples. */
  lemma {:induction false} DecodeLoopReadsWindowOnly(c: Calibration, t1: seq<nat>, t2: seq<nat>, changeCount: nat, i: nat, code: nat)
    requires 1 <= changeCount <= |t1| && changeCount <= |t2|
    requires t1[..changeCount] == t2[..changeCount]
    ensures DecodeLoop(c, t1, changeCount, i, code) == DecodeLoop(c, t2, changeCount, i, code)
    decreases changeCount - i
  {
    if i < changeCount - 1 {
      assert t1[i] == t1[..changeCount][i] && t2[i] == t2[..changeCount][i];
      assert t1[i + 1] == t1[..changeCount][i + 1] && t2[i + 1] == t2[..changeCount][i + 1];
      match ClassifyPair(c, t1[i], t1[i + 1])
      case None =>
      case Some(bit) =>
        DecodeLoopReadsWindowOnly(c, t1, t2, changeCount, i + 2, 2 * code + DigitValue(bit, true));
    }
  }

  /**
   receiveProtocol depends only on the samples of the current window: stale
   buffer entries at or beyond changeCount never influence the result.
   */
  lemma ReceiveProtocolReadsWindowOnly(p: nat, t1: seq<nat>, t2: seq<nat>, changeCount: nat)
    requires IsProtocolNumber(p)
    requires 1 <= changeCount <= |t1| && changeCount <= |t2|
    requires t1[..changeCount] == t2[..changeCount]
    ensures ReceiveProtocol(p, t1, changeCount) == ReceiveProtocol(p, t2, changeCount)
  {
    assert t1[0] == t1[..changeCount][0] && t2[0] == t2[..changeCount][0];
    var pro := GetProtocol(p);
    DecodeLoopReadsWindowOnly(Calibrate(pro, t1[0]), t1, t2, changeCount, FirstDataTiming(pro), 0);
  }

  /**
   The reported bit length is (changeCount - 1) / 2 whatever the template: it
   equals the number of decoded pairs, except for an inverted template over an
   odd window, where it counts one pair more than the loop decoded.
   */
  lemma BitLengthCountsPairs(p: nat, timings: seq<nat>, changeCount: nat)
    requires IsProtocolNumber(p)
    requires 1 <= changeCount <= |timings|
    requires ReceiveProtocol(p, timings, changeCount).Some?
    ensures var pro := GetProtocol(p);
            ReceiveProtocol(p, timings, changeCount).value.bitLength
            == NumPairs(pro, changeCount) + (if pro.invertedSignal && changeCount % 2 == 1 then 1 else 0)
  {
    var pro := GetProtocol(p);
    assert changeCount > MinChangeCount;
    if pro.invertedSignal {
      assert NumPairs(pro, changeCount) == (changeCount - 2) / 2;
    } else {
      assert NumPairs(pro, changeCount) == (changeCount - 1) / 2;
    }
  }

  /** Every pair the loop visits lies inside the window: the read of timings[i + 1] is in bounds. */
  lemma PairsInsideWindow(pro: Protocol, changeCount: nat, k: nat)
    requires k < NumPairs(pro, changeCount)
    ensures PairStart(pro, k) + 1 < changeCount
  {
  }

  /**
   The tolerance test is strict: a sample matches exactly when it lies in the
   open interval of half-width `tolerance` around the nominal duration, so a
   deviation equal to the tolerance fails.
   */
  lemma ToleranceIsStrict(c: Calibration, sample: nat, factor: nat)
    ensures Matches(c, sample, factor)
            <==> c.delay * factor - c.tolerance < sample < c.delay * factor + c.tolerance
    ensures !Matches(c, c.delay * factor + c.tolerance, factor)
  {
  }

  // ---------------------------------------------------------------------------
  // Round trip from a bit pattern through nominal timings.

  /** The sync samples a transmitter emits for a template at delay unit d. */
  function SyncTimings(pro: Protocol, d: nat): seq<nat>
  {
    [d * SyncLengthInPulses(pro)] + (if pro.invertedSignal then [d * pro.syncFactor.low] else [])
  }

  /** The nominal duration of sample i of the data part encoding `bits`. */
  function NominalSample(pro: Protocol, d: nat, bits: seq<bool>, i: nat): nat
    requires i < 2 * |bits|
  {
    var enc := if bits[i / 2] then pro.one else pro.zero;
    if i % 2 == 0 then d * enc.high else d * enc.low
  }

  /** Exactly nominal timings for `bits` under a template at delay unit d. */
  function NominalTimings(pro: Protocol, d: nat, bits: seq<bool>): (t: seq<nat>)
    ensures |t| == FirstDataTiming(pro) + 2 * |bits|
  {
    SyncTimings(pro, d) + seq(2 * |bits|, i requires 0 <= i < 2 * |bits| => NominalSample(pro, d, bits, i))
  }

  /** A positive multiple of s is at least s. */
  lemma {:induction false} MulAtLeast(x: nat, s: nat)
    requires x >= 1
    ensures x * s >= s
    decreases x
  {
    if x > 1 {
      MulAtLeast(x - 1, s);
      assert x * s == (x - 1) * s + s;
    }
  }

  /** A product with a differing factor is at least one delay unit away. */
  lemma ScaledFactorsDiffer(d: nat, a: nat, b: nat)
    requires a != b
    ensures Diff(d * a, d * b) >= d
  {
    if a > b {
      MulAtLeast(a - b, d);
      assert d * a == d * b + (a - b) * d;
    } else {
      MulAtLeast(b - a, d);
      assert d * b == d * a + (b - a) * d;
    }
  }

  /** Cancelling a positive factor. */
  lemma MulDivCancel(d: nat, s: nat)
    requires s > 0
    ensures d * s / s == d
  {
    var q := d * s / s;
    var r := d * s % s;
    assert d * s == q * s + r;
    if q < d {
      assert (d - q) * s == r;
      MulAtLeast(d - q, s);
      assert false;
    } else if q > d {
      assert (q - d) * s == -r;
      MulAtLeast(q - d, s);
      assert false;
    }
  }

  /**
   A pair at exactly the nominal durations of an encoding decodes to its bit,
   when the tolerance is positive and below one delay unit and the two
   encodings differ in their high factor.
   */
  lemma ExactPairClassified(c: Calibration, bit: bool)
    requires 0 < c.tolerance <= c.delay
    requires c.pro.zero.high != c.pro.one.high
    ensures var enc := if bit then c.pro.one else c.pro.zero;
            ClassifyPair(c, c.delay * enc.high, c.delay * enc.low) == Some(bit)
  {
    var enc := if bit then c.pro.one else c.pro.zero;
    assert PairMatches(c, c.delay * enc.high, c.delay * enc.low, enc);
    if bit {
      ScaledFactorsDiffer(c.delay, c.pro.one.high, c.pro.zero.high);
      assert !Matches(c, c.delay * enc.high, c.pro.zero.high);
    }
  }

  /** Calibrating a built-in template on its nominal sync sample recovers the delay unit. */
  lemma NominalCalibration(p: nat, d: nat, bits: seq<bool>)
    requires IsProtocolNumber(p)
    requires d >= 2
    ensures var pro := GetProtocol(p);
            var c := Calibrate(pro, NominalTimings(pro, d, bits)[0]);
            c.delay == d && 0 < c.tolerance <= c.delay
  {
    var pro := GetProtocol(p);
    MulDivCancel(d, SyncLengthInPulses(pro));
    assert NominalTimings(pro, d, bits)[0] == d * SyncLengthInPulses(pro);
  }

  /** Pair k of a nominal window holds the nominal durations of the encoding of bit k. */
  lemma NominalPairSamples(pro: Protocol, d: nat, bits: seq<bool>, k: nat)
    requires k < |bits|
    ensures var t := NominalTimings(pro, d, bits);
            var enc := if bits[k] then pro.one else pro.zero;
            PairStart(pro, k) + 1 < |t|
            && t[PairStart(pro, k)] == d * enc.high && t[PairStart(pro, k) + 1] == d * enc.low
  {
    var t := NominalTimings(pro, d, bits);
    var i := PairStart(pro, k);
    assert |SyncTimings(pro, d)| == FirstDataTiming(pro);
    assert t[i] == NominalSample(pro, d, bits, 2 * k);
    assert t[i + 1] == NominalSample(pro, d, bits, 2 * k + 1);
  }

  /** With nominal timings, each pair decodes to the bit it encodes. */
  lemma NominalPairBit(p: nat, d: nat, bits: seq<bool>, k: nat)
    requires IsProtocolNumber(p)
    requires d >= 2
    requires k < |bits|
    ensures var pro := GetProtocol(p);
            var t := NominalTimings(pro, d, bits);
            PairBit(Calibrate(pro, t[0]), t, k) == Some(bits[k])
  {
    var pro := GetProtocol(p);
    var t := NominalTimings(pro, d, bits);
    NominalCalibration(p, d, bits);
    NominalPairSamples(pro, d, bits, k);
    ExactPairClassified(Calibrate(pro, t[0]), bits[k]);
  }

  /**
   Exact round trip: for every built-in template, a window holding the nominal
   sync and data durations of a pattern of at least 4 bits at a delay unit of 2
   or more decodes to that pattern, its length, that delay unit and that template.
   */
  lemma NominalRoundTrip(p: nat, d: nat, bits: seq<bool>)
    requires IsProtocolNumber(p)
    requires d >= 2
    requires |bits| >= 4
    ensures var t := NominalTimings(GetProtocol(p), d, bits);
            ReceiveProtocol(p, t, |t|) == Some(Frame(MsbValue(bits, true), |bits|, d, p))
  {
    var pro := GetProtocol(p);
    var t := NominalTimings(pro, d, bits);
    MulDivCancel(d, SyncLengthInPulses(pro));
    var c := Calibrate(pro, t[0]);
    assert c.delay == d;
    assert NumPairs(pro, |t|) == |bits|;
    forall k | 0 <= k < |bits|
      ensures PairBit(c, t, k) == Some(bits[k])
    {
      NominalPairBit(p, d, bits, k);
    }
    assert AllPairsMatch(c, t, |t|);
    var decoded := DecodedBits(c, t, |bits|);
    assert decoded == bits by {
      forall k | 0 <= k < |bits|
        ensures decoded[k] == bits[k]
      {
        assert PairBit(c, t, k) == Some(decoded[k]);
      }
    }
    ReceiveProtocolCorrect(p, t, |t|);
    assert (|t| - 1) / 2 == |bits|;
  }

  /**
   The captured shape of a real transmission: for a template that is not
   inverted, the nominal window followed by one more sample (the short sync
   pulse that precedes the next gap) still decodes to the pattern. The extra
   sample makes the change count even, and the loop bound
   i < changeCount - 1 leaves it unread.
   */
  lemma NominalRoundTripWithTail(p: nat, d: nat, bits: seq<bool>, tail: nat)
    requires IsProtocolNumber(p) && !GetProtocol(p).invertedSignal
    requires d >= 2
    requires |bits| >= 4
    ensures var t := NominalTimings(GetProtocol(p), d, bits) + [tail];
            ReceiveProtocol(p, t, |t|) == Some(Frame(MsbValue(bits, true), |bits|, d, p))
  {
    var pro := GetProtocol(p);
    var nominal := NominalTimings(pro, d, bits);
    var t := nominal + [tail];
    NominalCalibration(p, d, bits);
    assert t[0] == nominal[0];
    var c := Calibrate(pro, t[0]);
    assert NumPairs(pro, |t|) == |bits|;
    forall k | 0 <= k < |bits|
      ensures PairBit(c, t, k) == Some(bits[k])
    {
      NominalPairBit(p, d, bits, k);
      NominalPairSamples(pro, d, bits, k);
      assert t[PairStart(pro, k)] == nominal[PairStart(pro, k)];
      assert t[PairStart(pro, k) + 1] == nominal[PairStart(pro, k) + 1];
    }
    assert AllPairsMatch(c, t, |t|);
    var decoded := DecodedBits(c, t, |bits|);
    assert decoded == bits by {
      forall k | 0 <= k < |bits|
        ensures decoded[k] == bits[k]
      {
        assert PairBit(c, t, k) == Some(decoded[k]);
      }
    }
    ReceiveProtocolCorrect(p, t, |t|);
    assert (|t| - 1) / 2 == |bits|;
  }

  /**
   Worked example: protocol 1 with sync 10850 = 31 * 350 and the pairs of 1, 0,
   1, 0 decodes to value 10, 4 bits, delay unit 350.
   */
  lemma Protocol1Example()
    ensures ReceiveProtocol(1, [10850, 1050, 350, 350, 1050, 1050, 350, 350, 1050], 9)
            == Some(Frame(10, 4, 350, 1))
  {
    var bits := [true, false, true, false];
    NominalRoundTrip(1, 350, bits);
    assert NominalTimings(GetProtocol(1), 350, bits) == [10850, 1050, 350, 350, 1050, 1050, 350, 350, 1050];
    assert MsbValue(bits, true) == 10 by {
      assert bits[..3] == [true, false, true];
      assert bits[..3][..2] == [true, false];
      assert bits[..3][..2][..1] == [true];
    }
  }
}
