/**
 The presentation helpers of the receiver: the zero-filled fixed-width binary
 numeral of a code, and its tri-state reading.
 */
module Output {
  import opened Options
  import opened Binary

  // ---------------------------------------------------------------------------
  // Binary numerals

  /** The character of a bit: '1' for a set bit, '0' otherwise. */
  function Digit(bit: nat): char
  {
    if bit > 0 then '1' else '0'
  }

  /** Every character is '0' or '1'. */
  predicate IsBinary(s: string)
  {
    forall k :: 0 <= k < |s| ==> s[k] == '0' || s[k] == '1'
  }

  /** n zero characters. */
  function Zeros(n: nat): (z: string)
    ensures |z| == n && IsBinary(z)
    ensures forall k :: 0 <= k < n ==> z[k] == '0'
  {
    seq(n, _ => '0')
  }

  /** The number of significant bits of n (0 for n = 0). */
  function SigBits(n: nat): nat
  {
    if n == 0 then 0 else 1 + SigBits(n / 2)
  }

  /** Bit b of n, counting from the least significant bit. */
  function Bit(n: nat, b: nat): nat
  {
    if b == 0 then n % 2 else Bit(n / 2, b - 1)
  }

  /** The significant bits of n as characters, least significant first. */
  function LsbDigits(n: nat): (s: string)
    ensures |s| == SigBits(n)
  {
    if n == 0 then [] else [Digit(n % 2)] + LsbDigits(n / 2)
  }

  /** Reference numeral: the low w bits of n, most significant first. */
  function FixedWidth(n: nat, w: nat): (s: string)
    ensures |s| == w
  {
    if w == 0 then [] else FixedWidth(n / 2, w - 1) + [Digit(n % 2)]
  }

  /** n fits in w bits exactly when it has at most w significant bits. */
  lemma {:induction false} SigBitsBound(n: nat, w: nat)
    ensures SigBits(n) <= w <==> n < Pow2(w)
    decreases w
  {
    if w > 0 && n > 0 {
      SigBitsBound(n / 2, w - 1);
    }
  }

  /** Character k of the reference numeral is bit w - 1 - k. */
  lemma {:induction false} FixedWidthAt(n: nat, w: nat, k: nat)
    requires k < w
    ensures FixedWidth(n, w)[k] == Digit(Bit(n, w - 1 - k))
    decreases w
  {
    if k < w - 1 {
      FixedWidthAt(n / 2, w - 1, k);
    }
  }

  /** Character b of the least-significant-first digits is bit b. */
  lemma {:induction false} LsbDigitsAt(n: nat, b: nat)
    requires b < SigBits(n)
    ensures LsbDigits(n)[b] == Digit(Bit(n, b))
    decreases n
  {
    if b > 0 {
      LsbDigitsAt(n / 2, b - 1);
    }
  }

  /** Bits above the significant ones are 0. */
  lemma {:induction false} BitBeyond(n: nat, b: nat)
    requires b >= SigBits(n)
    ensures Bit(n, b) == 0
    decreases b
  {
    if b > 0 {
      BitBeyond(n / 2, b - 1);
    }
  }

  /** Reading the reference numeral of a value that fits gives the value back. */
  lemma {:induction false} FixedWidthValue(n: nat, w: nat)
    requires n < Pow2(w)
    ensures IsBinary(FixedWidth(n, w))
    ensures MsbValue(FixedWidth(n, w), '1') == n
    decreases w
  {
    if w > 0 {
      FixedWidthValue(n / 2, w - 1);
      MsbValueAppend(FixedWidth(n / 2, w - 1), Digit(n % 2), '1');
    }
  }

  /** A binary string is the reference numeral of its own value at its own width. */
  lemma {:induction false} FixedWidthOfValue(s: string)
    requires IsBinary(s)
    ensures FixedWidth(MsbValue(s, '1'), |s|) == s
    decreases |s|
  {
    if |s| > 0 {
      var init := s[..|s| - 1];
      FixedWidthOfValue(init);
      assert s == init + [s[|s| - 1]];
    }
  }

  /**
   The character the zero-filled conversion places at position k of a
   w-character result when `dec` has `sig` significant bits: the digits of dec
   right-aligned when they fit, '0' everywhere when they do not.
   */
  function ZeroFilledAt(dec: nat, w: nat, k: nat): char
    requires k < w
  {
    if SigBits(dec) <= w && k >= w - SigBits(dec) then LsbDigits(dec)[w - 1 - k] else '0'
  }

  /** Where the value fits, the zero-filled characters are those of the reference numeral. */
  lemma ZeroFilledIsFixedWidth(dec: nat, w: nat, k: nat)
    requires k < w
    requires dec < Pow2(w)
    ensures ZeroFilledAt(dec, w, k) == FixedWidth(dec, w)[k]
  {
    SigBitsBound(dec, w);
    FixedWidthAt(dec, w, k);
    if k >= w - SigBits(dec) {
      LsbDigitsAt(dec, w - 1 - k);
    } else {
      BitBeyond(dec, w - 1 - k);
    }
  }

  /**
   The first loop of dec2binWzerofill: stores the bits of `dec`, least
   significant first, at positions 32, 33, ... of the 64-character buffer and
   counts them.
   */
  method StoreBits(dec: nat) returns (buf: seq<char>, i: nat)
    requires dec < Pow2(32)  // an unsigned long of the target
    ensures |buf| == 64
    ensures i == SigBits(dec) <= 32
    ensures forall b :: 0 <= b < i ==> buf[32 + b] == LsbDigits(dec)[b]
  {
    SigBitsBound(dec, 32);
    buf := seq(64, _ => '\0');
    var d := dec;
    i := 0;
    while d > 0
      invariant |buf| == 64
      invariant i + SigBits(d) == SigBits(dec) <= 32
      invariant LsbDigits(dec)[i..] == LsbDigits(d)
      invariant forall b :: 0 <= b < i ==> buf[32 + b] == LsbDigits(dec)[b]
      decreases d
    {
      ghost var digits := LsbDigits(dec);
      assert LsbDigits(d) == [Digit(d % 2)] + LsbDigits(d / 2);
      assert digits[i] == LsbDigits(d)[0] == Digit(d % 2);
      assert digits[i + 1..] == LsbDigits(d)[1..] == LsbDigits(d / 2);
      buf := buf[32 + i := if d % 2 > 0 then '1' else '0'];
      d := d / 2;
      i := i + 1;
    }
  }

  /**
   The second loop of dec2binWzerofill: fills positions 0 .. bitLength - 1,
   copying the stored bits most significant first from position
   `bitLength - i` on and writing '0' before it. The difference is unsigned, so
   it wraps when i > bitLength and then every position gets '0'.
   */
  method FillZeroPadded(buf: seq<char>, i: nat, dec: nat, bitLength: nat) returns (r: string)
    requires |buf| == 64
    requires i == SigBits(dec) <= 32
    requires forall b :: 0 <= b < i ==> buf[32 + b] == LsbDigits(dec)[b]
    requires bitLength <= 32
    ensures |r| == bitLength
    ensures forall k :: 0 <= k < bitLength ==> r[k] == ZeroFilledAt(dec, bitLength, k)
  {
    var bin := buf;
    // `bitLength - i` in unsigned 32-bit arithmetic
    var start: int := if i <= bitLength then bitLength - i else 0x1_0000_0000 + bitLength - i;
    var j: nat := 0;
    while j < bitLength
      invariant j <= bitLength
      invariant |bin| == 64
      invariant forall b :: 0 <= b < i ==> bin[32 + b] == LsbDigits(dec)[b]
      invariant forall k :: 0 <= k < j ==> bin[k] == ZeroFilledAt(dec, bitLength, k)
    {
      if j >= start {
        bin := bin[j := bin[31 + i - (j - start)]];
      } else {
        bin := bin[j := '0'];
      }
      j := j + 1;
    }
    r := bin[..bitLength];
  }

  /**
   The zero-filled characters form a binary numeral: the reference numeral of
   dec when dec fits in w bits, all '0' when it does not.
   */
  lemma ZeroFilledMeaning(dec: nat, w: nat, r: string)
    requires |r| == w
    requires forall k :: 0 <= k < w ==> r[k] == ZeroFilledAt(dec, w, k)
    ensures IsBinary(r)
    ensures dec < Pow2(w) ==> r == FixedWidth(dec, w) && MsbValue(r, '1') == dec
    ensures dec >= Pow2(w) ==> r == Zeros(w)
  {
    SigBitsBound(dec, w);
    forall k | 0 <= k < w
      ensures r[k] == '0' || r[k] == '1'
    {
      if SigBits(dec) <= w && k >= w - SigBits(dec) {
        LsbDigitsAt(dec, w - 1 - k);
      }
    }
    if dec < Pow2(w) {
      forall k | 0 <= k < w
        ensures r[k] == FixedWidth(dec, w)[k]
      {
        ZeroFilledIsFixedWidth(dec, w, k);
      }
      FixedWidthValue(dec, w);
    }
  }

  /**
   dec2binWzerofill: the bitLength-character binary numeral of dec, most
   significant first and padded with '0' on the left; all '0' when dec has
   more significant bits than bitLength.
   */
  method Dec2BinWZeroFill(dec: nat, bitLength: nat) returns (r: string)
    requires dec < Pow2(32)  // an unsigned long of the target
    requires bitLength <= 32
    ensures |r| == bitLength && IsBinary(r)
    ensures dec < Pow2(bitLength) ==> r == FixedWidth(dec, bitLength)
    ensures dec < Pow2(bitLength) ==> MsbValue(r, '1') == dec
    ensures dec >= Pow2(bitLength) ==> r == Zeros(bitLength)
    ensures forall j :: 0 <= j < bitLength - SigBits(dec) ==> r[j] == '0'
  {
    var buf, i := StoreBits(dec);
    r := FillZeroPadded(buf, i, dec, bitLength);
    ZeroFilledMeaning(dec, bitLength, r);
  }

  // ---------------------------------------------------------------------------
  // Tri-state codes

  /** The text returned for a numeral that has no tri-state reading. */
  const NotApplicable: string := "not applicable"

  /** Every character is a tri-state symbol '0', '1' or 'F'. */
  predicate IsTristate(t: string)
  {
    forall k :: 0 <= k < |t| ==> t[k] == '0' || t[k] == '1' || t[k] == 'F'
  }

  /** The tri-state symbol of a pair of binary characters: 00, 11 and 01 only. */
  function TristateSymbol(a: char, b: char): (r: Option<char>)
  {
    if a == '0' && b == '0' then Some('0')
    else if a == '1' && b == '1' then Some('1')
    else if a == '0' && b == '1' then Some('F')
    else None
  }

  /** The symbol of pair k, made of characters 2k and 2k + 1. */
  function PairSymbol(bin: string, k: nat): Option<char>
    requires 2 * k + 1 < |bin|
  {
    TristateSymbol(bin[2 * k], bin[2 * k + 1])
  }

  /**
   The pair-by-pair decoding loop: the tri-state symbols of all complete pairs
   (a trailing odd character is ignored), or nothing if some pair has none.
   */
  function DecodeTristate(bin: string): (r: Option<string>)
    ensures r.Some? <==> forall k :: 0 <= k < |bin| / 2 ==> PairSymbol(bin, k).Some?
    ensures r.Some? ==> |r.value| == |bin| / 2 && IsTristate(r.value)
    ensures r.Some? ==> forall k :: 0 <= k < |bin| / 2 ==> PairSymbol(bin, k) == Some(r.value[k])
    decreases |bin|
  {
    if |bin| < 2 then Some([])
    else
      var rest := bin[2..];
      assert forall k :: 0 <= k < |rest| / 2 ==> PairSymbol(rest, k) == PairSymbol(bin, k + 1);
      match TristateSymbol(bin[0], bin[1])
      case None =>
        assert PairSymbol(bin, 0).None?;
        None
      case Some(c) =>
        match DecodeTristate(rest)
        case None => None
        case Some(t) =>
          assert forall k :: 1 <= k < |bin| / 2 ==> PairSymbol(bin, k) == PairSymbol(rest, k - 1);
          Some([c] + t)
  }

  /**
   bin2tristate: the tri-state reading of a binary numeral, or "not applicable"
   when some pair is neither 00, 11 nor 01. The input is a C string, so it
   holds no NUL character, and its reading must fit the 50-character buffer.
   */
  function Bin2Tristate(bin: string): (r: string)
    requires forall k :: 0 <= k < |bin| ==> bin[k] != '\0'
    requires |bin| / 2 < 50
    ensures r == NotApplicable <==> exists k :: 0 <= k < |bin| / 2 && PairSymbol(bin, k).None?
    ensures r != NotApplicable ==> |r| == |bin| / 2 && IsTristate(r)
    ensures r != NotApplicable ==> forall k :: 0 <= k < |r| ==> PairSymbol(bin, k) == Some(r[k])
  {
    match DecodeTristate(bin)
    case Some(t) =>
      assert t != NotApplicable by {
        if |t| == |NotApplicable| {
          assert NotApplicable[0] == 'n';
          assert t[0] != 'n';
        }
      }
      t
    case None => NotApplicable
  }

  /** The two binary characters encoding a tri-state symbol. */
  function SymbolBits(c: char): string
  {
    if c == '0' then "00" else if c == '1' then "11" else "01"
  }

  /** The binary numeral whose tri-state reading is t. */
  function TristateToBin(t: string): (s: string)
    ensures |s| == 2 * |t| && IsBinary(s)
  {
    if |t| == 0 then [] else SymbolBits(t[0]) + TristateToBin(t[1..])
  }

  /** Reading the encoding of a tri-state code gives the code back. */
  lemma {:induction false} TristateRoundTrip(t: string)
    requires IsTristate(t)
    requires |t| < 50
    ensures Bin2Tristate(TristateToBin(t)) == t
  {
    DecodeTristateRoundTrip(t);
  }

  /** The decoding loop inverts the encoding. */
  lemma {:induction false} DecodeTristateRoundTrip(t: string)
    requires IsTristate(t)
    ensures DecodeTristate(TristateToBin(t)) == Some(t)
    decreases |t|
  {
    if |t| > 0 {
      var s := TristateToBin(t);
      assert s[2..] == TristateToBin(t[1..]);
      assert s[0] == SymbolBits(t[0])[0] && s[1] == SymbolBits(t[0])[1];
      DecodeTristateRoundTrip(t[1..]);
      assert [t[0]] + t[1..] == t;
    }
  }

  /**
   Conversely, a numeral with a tri-state reading is the encoding of that
   reading, up to a trailing odd character.
   */
  lemma {:induction false} BinaryRoundTrip(bin: string)
    requires forall k :: 0 <= k < |bin| ==> bin[k] != '\0'
    requires |bin| / 2 < 50
    requires Bin2Tristate(bin) != NotApplicable
    ensures TristateToBin(Bin2Tristate(bin)) == bin[..2 * (|bin| / 2)]
  {
    EncodeDecodedTristate(bin);
  }

  /** Encoding the decoded symbols restores the complete pairs. */
  lemma {:induction false} EncodeDecodedTristate(bin: string)
    requires DecodeTristate(bin).Some?
    ensures TristateToBin(DecodeTristate(bin).value) == bin[..2 * (|bin| / 2)]
    decreases |bin|
  {
    if |bin| >= 2 {
      var rest := bin[2..];
      var t := DecodeTristate(bin).value;
      assert PairSymbol(bin, 0) == Some(t[0]);
      assert DecodeTristate(rest).Some? && t[1..] == DecodeTristate(rest).value;
      EncodeDecodedTristate(rest);
      assert SymbolBits(t[0]) == bin[..2];
      assert bin[..2 * (|bin| / 2)] == bin[..2] + rest[..2 * (|rest| / 2)];
    }
  }
}
