# RF433 receiver core in Dafny

This project models the decoding core of the ESP32 433 MHz remote-control receiver, which is derived from RC-Switch. It has three parts.

- **The protocol matcher** (`receiveProtocol`, module `Matcher`). It is given the timing buffer and the change count.
  - It derives a delay unit from the first (sync) sample, and an integer tolerance of 60 % of that unit.
  - It reads the following (high, low) sample pairs as bits, most significant first, testing the "zero" encoding before the "one" encoding.
  - It fails on the first pair that matches neither.
  - It yields a `Frame` (value, bit length, delay unit, protocol number) instead of writing the four `nReceived*` globals. The frame is produced only when the window holds more than 7 samples.
  - The six timing templates of the `proto` table are in module `Protocols`.
- **The edge interrupt handler** (`data_interrupt_handler`, module `Receiver`). It is a pure step `HandleEdge(state, duration) -> (state', Option<protocol number>)`.
  - The state holds the timing buffer, the handler's static `changeCount` and `repeatCount`, and the published frame.
  - The optional output stands for the queue send of the protocol number.
  - A duration above 4300 µs is a gap. A gap within 200 µs of `timings[0]` is a repeated gap. The second repeated gap runs the matcher over protocols 1 to 6, stopping at the first success.
  - A full buffer restarts the window. The duration is then stored.
  - `Final` and `Queued` feed a whole stream of durations and give the resulting state and the queued protocol numbers.
  - `Available`/`ResetAvailable` model `available()`/`resetAvailable()`.
- **The output helpers** (`dec2binWzerofill`, `bin2tristate`, module `Output`).
  - `dec2binWzerofill` is modelled as its two loops over the 64-character buffer. The unsigned difference `bitLength - i` wraps explicitly.
  - `bin2tristate` is a pair-by-pair decoding into `0`/`1`/`F`, or `"not applicable"`.

The buffer capacity `RCSWITCH_MAX_CHANGES` is defined in a header that is not part of this model. It is therefore the length of the state's buffer, any positive number. Durations, codes and counters are unbounded naturals.

The proofs relate each operation to an independent description:
- the matcher against a pair-by-pair reference (`AllPairsMatch`, `DecodedBits`), and nominal transmitter timings back to their bit pattern;
- the handler against stream-level scenarios (a transmission sent twice is decoded on the third gap);
- `dec2binWzerofill` against a reference numeral and the MSB-first reading;
- `bin2tristate` against its encoding, in both directions.

## Model

| member | source | states |
|---|---|---|
| Protocols.GetProtocol | main/esp32_rf_receiver.c:27-38 | Protocol p is table entry p - 1. Every template has a positive sync length and distinct 0/1 factors in both halves of a pair. |
| Matcher.ClassifyPair | main/esp32_rf_receiver.c:87-97 | A pair is 0 iff it matches the zero encoding; 1 iff it fails zero but matches one; no bit iff it matches neither. Zero wins when both match. |
| Matcher.ReceiveProtocol | main/esp32_rf_receiver.c:57-109 | No frame whenever changeCount <= 7, whatever the samples. A frame carries protocol p, bit length (changeCount - 1) / 2 and delay timings[0] / max(sync factors). |
| MatcherProperties.DecodeLoopInvariant | main/esp32_rf_receiver.c:85-98 | Invariant of the decoding loop: entered at pair j with the code of the first j pairs, it succeeds iff every pair of the window decodes. It then returns the MSB-first value of all decoded bits. |
| MatcherProperties.ReceiveProtocolCorrect | main/esp32_rf_receiver.c:57-109 | A frame exists iff changeCount > 7 and every pair decodes. Its value is the MSB-first reading of the pair bits, starting at sample 1 (2 for an inverted template). |
| MatcherProperties.ReceiveProtocolReadsWindowOnly | main/esp32_rf_receiver.c:85-98 | The result depends only on the first changeCount samples. Stale buffer entries never matter. |
| MatcherProperties.PairsInsideWindow | main/esp32_rf_receiver.c:85-91 | Every visited pair has i + 1 < changeCount, so the read of timings[i + 1] stays inside the window. |
| MatcherProperties.ToleranceIsStrict | main/esp32_rf_receiver.c:87-91 | A sample matches iff it lies in the open interval of half-width delay * 60 / 100 around the nominal duration. A deviation equal to the tolerance fails. |
| MatcherProperties.BitLengthCountsPairs | main/esp32_rf_receiver.c:83-102 | The reported bit length equals the number of decoded pairs. The exception is an inverted template over an odd window, where it is one more. |
| MatcherProperties.ExactPairClassified | main/esp32_rf_receiver.c:87-93 | A pair at exactly the nominal durations of an encoding decodes to that encoding's bit. |
| MatcherProperties.NominalCalibration | main/esp32_rf_receiver.c:62-64 | Calibrating a template on its nominal sync sample recovers the delay unit. The tolerance is then positive and at most one unit. |
| MatcherProperties.NominalPairBit | main/esp32_rf_receiver.c:85-98 | In a window of nominal timings, every pair decodes to the bit it encodes. |
| MatcherProperties.NominalRoundTrip | main/esp32_rf_receiver.c:57-109 | For every template, nominal timings of a pattern of at least 4 bits at a delay unit of at least 2 decode to a frame with the pattern's value, its length, that delay unit and that template. |
| MatcherProperties.NominalRoundTripWithTail | main/esp32_rf_receiver.c:85-104 | For a template that is not inverted, nominal timings followed by any one extra sample decode to the same frame. The capture then has an even changeCount, and the extra sample adds no bit. |
| MatcherProperties.Protocol1Example | main/esp32_rf_receiver.c:57-109 | Protocol 1 on [10850, 1050, 350, 350, 1050, 1050, 350, 350, 1050] with changeCount 9 gives value 10, 4 bits, delay 350. |
| Binary.MsbValueAppend | main/esp32_rf_receiver.c:86-93 | Shifting the code left and or-ing in a bit appends the bit to the MSB-first numeral. |
| Matcher.Diff | main/esp32_rf_receiver.c:53-55 | The distance between two samples is their absolute difference, whichever is larger. |
| Receiver.Init | main/esp32_rf_receiver.c:40-50 | The power-on state is valid, with a zeroed buffer and nothing available. Both counters are zero, as the handler's statics `changeCount` and `repeatCount` are at lines 145-147. |
| Receiver.FirstMatchFrom | main/esp32_rf_receiver.c:164-171 | Tries protocols in increasing order. A result is the first protocol that matches, and every earlier one fails. There is no result iff every remaining protocol fails. |
| Receiver.FirstMatch | main/esp32_rf_receiver.c:164-171 | The decode pass returns the frame of the lowest-numbered matching protocol, or nothing iff all six fail. |
| Receiver.HandleEdge | main/esp32_rf_receiver.c:143-185 | Bounds stay valid and 1 <= changeCount <= capacity. The duration is appended, or stored at index 0 after a gap or an overflow. A repeated gap flips the pending-repeat count; other edges keep it, except that an overflow clears it. A protocol number is queued iff the gap is the second repeated one and some protocol matches. The published frame changes only then. |
| Receiver.Final | main/esp32_rf_receiver.c:175-183 | Validity of the state (window inside the buffer, at most one pending repeat) holds after any stream of edges. |
| ReceiverProperties.AvailabilityAcrossEdge | main/esp32_rf_receiver.c:113-115 | `available()` changes only when an edge publishes a frame. It then holds iff the first matching protocol decoded a non-zero value. Otherwise it keeps its previous reading. |
| Receiver.ResetAvailable | main/esp32_rf_receiver.c:113-119 | After the reset nothing is available. Every other field is unchanged. |
| ReceiverProperties.QueuedProtocolNumbers | main/esp32_rf_receiver.c:164-168 | Every queued value is a protocol number from 1 to 6. No more values are queued than edges are fed. |
| ReceiverProperties.FinalConcat | main/esp32_rf_receiver.c:143-185 | Feeding two streams one after the other ends in the same state as feeding their concatenation. |
| ReceiverProperties.QueuedConcat | main/esp32_rf_receiver.c:143-185 | The values queued by a concatenated stream are those of its first part, then those of its second. |
| ReceiverProperties.AppendSample | main/esp32_rf_receiver.c:183 | A non-gap sample with room left is stored at the write position. Nothing else changes and nothing is queued. |
| ReceiverProperties.FeedSamples | main/esp32_rf_receiver.c:177-184 | Non-gap samples that fit are appended in order. Nothing is queued, and neither the repeat count nor the frame changes. |
| ReceiverProperties.SingleGapNeverDecodes | main/esp32_rf_receiver.c:153-163 | A gap that is not repeated, or a repeated gap with no repeat pending, never runs a decode pass and leaves the frame unchanged. |
| ReceiverProperties.DecodePass | main/esp32_rf_receiver.c:153-183 | A gap within 200 µs of the window's first sample, arriving as the second repeated gap after a complete window, queues the first matching protocol, if any, and publishes its frame. The next window then starts with that gap. |
| ReceiverProperties.TransmissionAfterGap | main/esp32_rf_receiver.c:153-183 | A gap that does not complete a repeat pair opens a new window, which the data samples then fill. Nothing is queued. |
| ReceiverProperties.RepeatedTransmissionDecodes | main/esp32_rf_receiver.c:153-183 | From power-on, a transmission sent twice behind three gaps, each within 200 µs of the gap before it, is decoded exactly once, on the third gap, to the first matching protocol of the second capture. |
| ReceiverProperties.Protocol1EndToEnd | main/esp32_rf_receiver.c:143-185 | A protocol 1 capture of any pattern of at least 4 bits is sent twice, at a delay unit for which only the sync is a gap. The capture is the sync gap, the data pairs and the trailing short sync pulse, so its changeCount is even. Protocol 1 is queued once and the pattern's frame is published. |
| Output.StoreBits | main/include/output.c:48-51 | The first loop stores the significant bits of Dec, least significant first, at positions 32 onwards, and counts them. |
| Output.FillZeroPadded | main/include/output.c:53-60 | The second loop yields exactly bitLength characters. Each is the right-aligned stored digit or '0', including the wrapped case where every position gets '0'. |
| Output.ZeroFilledMeaning | main/include/output.c:53-59 | The zero-filled characters are binary. They are the reference numeral of Dec when Dec < 2^bitLength, and all '0' otherwise. |
| Output.Dec2BinWZeroFill | main/include/output.c:44-63 | Exactly bitLength characters, each '0' or '1'. Read MSB-first they give Dec when Dec < 2^bitLength. Positions before bitLength minus the significant-bit count are '0', and Dec = 0 gives all zeros. |
| Output.FixedWidthValue | main/include/output.c:48-59 | The reference numeral of a value that fits is binary and reads back (MSB-first) as the value. |
| Output.FixedWidthOfValue | main/include/output.c:48-59 | Every binary string is the reference numeral of its own value at its own width, which closes the round trip. |
| Output.DecodeTristate | main/include/output.c:27-39 | The loop succeeds iff every complete pair is 00, 11 or 01. It then yields one symbol per pair, positionwise, and ignores a trailing odd character. |
| Output.Bin2Tristate | main/include/output.c:23-42 | The result is "not applicable" iff some pair is not 00/11/01. Otherwise it has length ⌊len/2⌋ and maps 00→'0', 11→'1', 01→'F' position by position. |
| Output.TristateRoundTrip | main/include/output.c:28-33 | Expanding a string over {0, 1, F} into pairs and applying bin2tristate gives the string back. |
| Output.BinaryRoundTrip | main/include/output.c:27-41 | A numeral with a tri-state reading is the expansion of that reading, up to a trailing odd character. |

## Left out

- `app_main`: GPIO, interrupt, queue and task set-up is peripheral configuration only.
- The `receiver_rf433` consumer task and its logging: this is blocking queue I/O. Only its effect, `resetAvailable`, is modelled.
- `esp_timer_get_time`, `lastTime` and the truncation of `time - lastTime`: the clock is replaced by feeding the handler each duration directly.
- `xQueueSendFromISR`: the RTOS queue is replaced by the step's output. Its capacity-1 behaviour when full is not modelled, and `Queued` lists every send.
- The volatile globals shared between the interrupt and the task, and torn reads of the published fields: these are concurrency concerns. Publication is an atomic update of the state's frame.
- The raw timing buffer returned by `getReceivedRawdata` and the trivial `getReceived*` getters: they read fields the state exposes directly.
- `output()`: its `printf` body is I/O. The aliasing of the static buffers returned by the helpers is replaced by fresh strings.
- Matcher.ReceiveProtocol: does not model the 32-bit wrap-around of the `unsigned long code` shift (`code <<= 1`), nor of the `unsigned int` products `delay * factor` and `delay * nReceiveTolerance` (main/esp32_rf_receiver.c:60-64, 86-93). Values are unbounded naturals, so codes longer than 32 bits keep their high bits.
- Receiver.HandleEdge: does not model `unsigned int` durations. Durations are unbounded naturals.
- Matcher.Diff: does not model the conversion of its `unsigned int` arguments to `int` before `abs(A - B)`. The model takes the exact difference of unbounded integers. In the C, values above `INT_MAX` convert to negative numbers. That affects both callers: the pair tests in the matcher (main/esp32_rf_receiver.c:87-91) and the repeated-gap test in the handler (line 156).
- Output.Dec2BinWZeroFill: requires bitLength <= 32. The C buffer would accept up to 63, but then the in-place copy of the second loop overlaps the stored digits it reads.
- Output.Bin2Tristate: requires the whole reading to fit the 50-character buffer, even when an early invalid pair would return "not applicable" first.
- ReceiverProperties.Protocol1EndToEnd: the stream-level round trip is proved only for protocol 1. For the other templates, the round trip is proved at the matcher level (`NominalRoundTrip`). At the handler level an earlier template could match first, which is not excluded here.
- `Available` means a non-zero value, as in the source, so a decoded frame with value 0 never reads as available.
