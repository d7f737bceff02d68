/**
 The fixed table of remote-control timing templates, in the order in which the
 receiver tries them.
 */
module Protocols {

  /** A (high, low) pair of durations, as multiples of the delay unit. */
  datatype HighLow = HighLow(high: nat, low: nat)

  /**
   One timing template: the nominal pulse length (informational only), the
   sync period, the encodings of a 0 bit and of a 1 bit, and whether the sync
   period occupies two leading samples instead of one.
   */
  datatype Protocol = Protocol(
    pulseLength: nat,
    syncFactor: HighLow,
    zero: HighLow,
    one: HighLow,
    invertedSignal: bool)

  /** The built-in templates; protocol number p is `Proto[p - 1]`. */
  const Proto: seq<Protocol> := [
    Protocol(350, HighLow(1, 31), HighLow(1, 3), HighLow(3, 1), false),
    Protocol(650, HighLow(1, 10), HighLow(1, 2), HighLow(2, 1), false),
    Protocol(100, HighLow(30, 71), HighLow(4, 11), HighLow(9, 6), false),
    Protocol(380, HighLow(1, 6), HighLow(1, 3), HighLow(3, 1), false),
    Protocol(500, HighLow(6, 14), HighLow(1, 2), HighLow(2, 1), false),
    Protocol(450, HighLow(23, 1), HighLow(1, 2), HighLow(2, 1), true)
  ]

  const NumProto: nat := 6

  /** Protocol numbers are 1-based. */
  predicate IsProtocolNumber(p: nat)
  {
    1 <= p <= NumProto
  }

  /** The longer of the two sync factors; the first captured duration is assumed to be that one. */
  function SyncLengthInPulses(pro: Protocol): nat
  {
    if pro.syncFactor.low > pro.syncFactor.high then pro.syncFactor.low else pro.syncFactor.high
  }

  /** Index of the first data sample in the timing buffer. */
  function FirstDataTiming(pro: Protocol): nat
  {
    if pro.invertedSignal then 2 else 1
  }

  /**
   The template of protocol number p. Every built-in template has a non-zero
   sync length and distinguishes a 0 bit from a 1 bit in both halves of a pair.
   */
  function GetProtocol(p: nat): (pro: Protocol)
    requires IsProtocolNumber(p)
    ensures pro == Proto[p - 1]
    ensures SyncLengthInPulses(pro) > 0
    ensures pro.zero.high != pro.one.high && pro.zero.low != pro.one.low
  {
    Proto[p - 1]
  }
}
