/** The WS08 ThermoBeacon command/response frames as HelloTinyB builds and reads them:
    the count query and the little-endian count in its response, the indexed sample
    query, and the six fixed-point slots of the sample response of which two are
    returned as temperature and humidity. */
module Ws08Protocol {
  import opened JavaLang
  import opened HexCodec

  // ---------------------------------------------------------------------------
  // Count query and its response
  // ---------------------------------------------------------------------------

  /** The command written to ask how many samples the device holds. */
  const CountQueryHex: string := "0100000000"

  lemma CountQueryFrame()
    ensures IsHexString(CountQueryHex) && HexDecode(CountQueryHex) == [0x01, 0x00, 0x00, 0x00, 0x00]
  {
  }

  /** `available = ((response[2] & 0xFF) << 8) | (response[1] & 0xFF)`: the sample count, read
      little-endian from bytes 1 and 2. Writing it back as two bytes gives those bytes. */
  function AvailableCount(response: seq<JByte>): (available: int)
    requires |response| >= 3
    ensures 0 <= available <= 0xFFFF
    ensures ToJByte(available % 256) == response[1] && ToJByte(available / 256) == response[2]
  {
    EncodingOfLittleEndian16(response, 1);
    LittleEndian16(response, 1)
  }

  /** A response carrying the count `n` little-endian in bytes 1-2 decodes to `n`, whatever its
      other bytes hold. */
  lemma AvailableCountOfEncoding(response: seq<JByte>, n: int)
    requires |response| >= 3 && 0 <= n <= 0xFFFF
    requires response[1] == ToJByte(n % 256) && response[2] == ToJByte(n / 256)
    ensures AvailableCount(response) == n
  {
    LittleEndian16OfEncoding(response, 1, n);
  }

  /** Byte 0 and bytes 3 onward do not influence the count. */
  lemma AvailableCountIgnoresOtherBytes(a: seq<JByte>, b: seq<JByte>)
    requires |a| >= 3 && |b| >= 3 && a[1] == b[1] && a[2] == b[2]
    ensures AvailableCount(a) == AvailableCount(b)
  {
    AvailableCountOfEncoding(b, AvailableCount(a));
  }

  // ---------------------------------------------------------------------------
  // Sample query
  // ---------------------------------------------------------------------------

  /** The sample-query command built in `main` from the count: `index = available - 1`,
      `indexHex = String.format("%04x", index)`, the two digit pairs swapped, then
      `"07" + indexHexReversed + "000003"`. A count of 0 is not skipped. */
  function SampleQueryHex(available: int): (hexString: string)
    requires 0 <= available <= 0xFFFF
    ensures |hexString| % 2 == 0 && IsHexString(hexString)
    ensures |hexString| == if available == 0 then 16 else 12
  {
    var index := available - 1;
    var indexHex := Format04x(index);
    var indexHexReversed := indexHex[2..] + indexHex[..2];
    var r := "07" + indexHexReversed + "000003";
    assert IsHexString(r) by {
      SwappedQueryIsHex(indexHex);
    }
    r
  }

  /** Swapping the digit pairs of a hex string and framing it keeps every character a hex digit. */
  lemma SwappedQueryIsHex(h: string)
    requires 2 <= |h| && IsHexString(h)
    ensures IsHexString("07" + (h[2..] + h[..2]) + "000003")
  {
    var swapped := h[2..] + h[..2];
    var r := "07" + swapped + "000003";
    forall i | 0 <= i < |r| ensures IsHexDigit(r[i]) {
      if 2 <= i < |r| - 6 {
        var j := i - 2;
        assert r[i] == swapped[j];
        if j < |h| - 2 {
          assert swapped[j] == h[j + 2];
        } else {
          assert swapped[j] == h[j - (|h| - 2)];
        }
      }
    }
  }

  /** The digits `%x` prints for the unsigned 32-bit view of -1. */
  lemma HexDigitsOfMax()
    ensures HexDigits(0xFFFF_FFFF) == "ffffffff"
    ensures Format04x(-1) == "ffffffff"
  {
    assert LowerDigit(15) == 'f';
    assert HexDigits(0xF) == "f";
    assert HexDigits(0xFF) == "ff";
    assert HexDigits(0xFFF) == "fff";
    assert HexDigits(0xFFFF) == "ffff";
    assert HexDigits(0xF_FFFF) == "fffff";
    assert HexDigits(0xFF_FFFF) == "ffffff";
    assert HexDigits(0xFFF_FFFF) == "fffffff";
    assert HexDigits(0xFFFF_FFFF) == "ffffffff";
  }

  /** For a count of 1..65535 the query is the 6-byte frame `07 lo hi 00 00 03`, where `lo hi` is the
      index of the newest sample, `available - 1`, little-endian. */
  lemma SampleQueryFrame(available: int)
    requires 1 <= available <= 0xFFFF
    ensures HexDecode(SampleQueryHex(available)) ==
      [0x07, ToJByte((available - 1) % 256), ToJByte((available - 1) / 256), 0x00, 0x00, 0x03]
    ensures LittleEndian16(HexDecode(SampleQueryHex(available)), 1) == available - 1
  {
    var index := available - 1;
    var h := Format04x(index);
    SwappedQueryLayout(h);
    assert PairByte(h[2], h[3]) == ToJByte(index % 256) && PairByte(h[0], h[1]) == ToJByte(index / 256) by {
      FourDigitValue(h);
    }
    LittleEndian16OfEncoding(HexDecode(SampleQueryHex(available)), 1, index);
  }

  /** The frame `"07" + indexHex[2..] + indexHex[..2] + "000003"` decodes to `07`, the byte of the
      last two digits, the byte of the first two digits, `00 00 03`. */
  lemma SwappedQueryLayout(h: string)
    requires |h| == 4 && IsHexString(h)
    ensures IsHexString("07" + (h[2..] + h[..2]) + "000003")
    ensures HexDecode("07" + (h[2..] + h[..2]) + "000003") ==
      [0x07, PairByte(h[2], h[3]), PairByte(h[0], h[1]), 0x00, 0x00, 0x03]
  {
    var lo, hi := h[2..], h[..2];
    assert IsHexString(lo) && IsHexString(hi) by {
      assert lo[0] == h[2] && lo[1] == h[3] && hi[0] == h[0] && hi[1] == h[1];
    }
    PairDecode(lo);
    PairDecode(hi);
    HexDecodeAppend(lo, hi);
    QueryConstants();
    HexDecodeAppend("07", lo + hi);
    HexDecodeAppend("07" + (lo + hi), "000003");
  }

  /** The fixed head and tail of the sample query. */
  lemma QueryConstants()
    ensures IsHexString("07") && HexDecode("07") == [0x07]
    ensures IsHexString("000003") && HexDecode("000003") == [0x00, 0x00, 0x03]
  {
    PairByteExamples();
  }

  /** A single hex pair decodes to one byte. */
  lemma PairDecode(t: string)
    requires |t| == 2 && IsHexString(t)
    ensures HexDecode(t) == [PairByte(t[0], t[1])]
  {
    assert t[2..] == [];
  }

  /** The value of a four-digit hex string, split into its high and low digit pairs. */
  lemma FourDigitValue(h: string)
    requires |h| == 4 && IsHexString(h) && 0 <= HexValue(h) < 0x1_0000
    ensures PairByte(h[2], h[3]) == ToJByte(HexValue(h) % 256)
    ensures PairByte(h[0], h[1]) == ToJByte(HexValue(h) / 256)
  {
    assert h[..3][..2] == h[..2] && h[..2][..1] == h[..1] && h[..1][..0] == [];
    var hi := 16 * DigitValue(h[0]) + DigitValue(h[1]);
    var lo := 16 * DigitValue(h[2]) + DigitValue(h[3]);
    assert HexValue(h[..1]) == DigitValue(h[0]);
    assert HexValue(h[..2]) == hi;
    assert HexValue(h[..3]) == 16 * hi + DigitValue(h[2]);
    assert HexValue(h) == 256 * hi + lo;
    SplitBytes(HexValue(h), hi, lo);
  }

  /** `n == 256 * hi + lo` with `lo` a byte value makes `lo` and `hi` the remainder and quotient. */
  lemma SplitBytes(n: int, hi: int, lo: int)
    requires n == 256 * hi + lo && 0 <= lo < 256
    ensures n % 256 == lo && n / 256 == hi
  {
  }

  /** With no sample stored the index is -1, which `%04x` prints as "ffffffff": the query is still
      sent, as the 8-byte frame `07 ff ff ff ff 00 00 03`. */
  lemma SampleQueryWhenEmpty()
    ensures SampleQueryHex(0) == "07ffffffff000003"
    ensures HexDecode(SampleQueryHex(0)) == [0x07, -1, -1, -1, -1, 0x00, 0x00, 0x03]
  {
    var h := Format04x(-1);
    assert h == "ffffffff" by {
      HexDigitsOfMax();
    }
    assert h[2..] + h[..2] == "ffffffff";
    assert "07" + "ffffffff" + "000003" == "07ffffffff000003";
    EmptyQueryBytes();
  }

  /** The 8-byte frame sent for a count of 0, pair by pair. */
  lemma EmptyQueryBytes()
    ensures IsHexString("07ffffffff000003")
    ensures HexDecode("07ffffffff000003") == [0x07, -1, -1, -1, -1, 0x00, 0x00, 0x03]
  {
    EmptyQueryIsHex();
    EightPairs("07ffffffff000003");
    PairByteExamples();
  }

  /** A 16-character hex string decodes to the bytes of its eight character pairs. */
  lemma EightPairs(s: string)
    requires |s| == 16 && IsHexString(s)
    ensures HexDecode(s) ==
      [PairByte(s[0], s[1]), PairByte(s[2], s[3]), PairByte(s[4], s[5]), PairByte(s[6], s[7]),
       PairByte(s[8], s[9]), PairByte(s[10], s[11]), PairByte(s[12], s[13]), PairByte(s[14], s[15])]
  {
    HexDecodeAt(s, 0);
    HexDecodeAt(s, 1);
    HexDecodeAt(s, 2);
    HexDecodeAt(s, 3);
    HexDecodeAt(s, 4);
    HexDecodeAt(s, 5);
    HexDecodeAt(s, 6);
    HexDecodeAt(s, 7);
  }

  lemma EmptyQueryIsHex()
    ensures IsHexString("07ffffffff000003")
  {
  }

  /** The bytes of the character pairs in the fixed frames. */
  lemma PairByteExamples()
    ensures PairByte('0', '0') == 0x00 && PairByte('0', '3') == 0x03 && PairByte('0', '7') == 0x07
    ensures PairByte('f', 'f') == -1
  {
  }

  // ---------------------------------------------------------------------------
  // Sample response: convertToReadings
  // ---------------------------------------------------------------------------

  /** The number of 16-bit slots in a sample response, and where the first starts. */
  const SlotCount := 6
  const SlotOffset := 6

  /** Absolute value. */
  function Abs(x: int): int {
    if x < 0 then -x else x
  }

  /** `setScale(0, RoundingMode.HALF_UP)` of the exact rational `num / den`: the nearest integer,
      a tie going away from zero. */
  function RoundHalfUp(num: int, den: int): (r: int)
    requires den > 0
    ensures 2 * Abs(num - r * den) <= den
    ensures 2 * Abs(num - r * den) == den ==> Abs(r * den) > Abs(num)
  {
    var a := Abs(num);
    var q := (2 * a + den) / (2 * den);
    RoundHalfUpMagnitude(a, den, q);
    if num < 0 then
      assert (-q) * den == -(q * den);
      assert num - (-q) * den == -(a - q * den);
      -q
    else
      q
  }

  lemma RoundHalfUpMagnitude(a: nat, den: int, q: int)
    requires den > 0 && q == (2 * a + den) / (2 * den)
    ensures 2 * Abs(a - q * den) <= den
    ensures 2 * Abs(a - q * den) == den ==> q * den > a
  {
    var rem := (2 * a + den) % (2 * den);
    assert 2 * a + den == 2 * den * q + rem;
    assert 0 <= rem < 2 * den;
    assert 2 * (a - q * den) == rem - den;
  }

  /** Only one integer meets the two rounding conditions, so they define HALF_UP completely. */
  lemma RoundHalfUpUnique(num: int, den: int, r: int)
    requires den > 0
    requires 2 * Abs(num - r * den) <= den
    requires 2 * Abs(num - r * den) == den ==> Abs(r * den) > Abs(num)
    ensures r == RoundHalfUp(num, den)
  {
    var s := RoundHalfUp(num, den);
    if r < s {
      NeighbourTie(num, den, r, s);
    } else if s < r {
      NeighbourTie(num, den, s, r);
    }
  }

  /** Two different integers both within half a step of `num / den` must be the two sides of a tie,
      and then only one of them lies away from zero. */
  lemma NeighbourTie(num: int, den: int, lo: int, hi: int)
    requires den > 0 && lo < hi
    requires 2 * Abs(num - lo * den) <= den && 2 * Abs(num - hi * den) <= den
    ensures 2 * Abs(num - lo * den) == den && 2 * Abs(num - hi * den) == den
    ensures !(Abs(lo * den) > Abs(num) && Abs(hi * den) > Abs(num))
  {
    MulAtLeast(hi - lo, den);
    assert (hi - lo) * den == hi * den - lo * den;
    assert 2 * (num - lo * den) == den && 2 * (hi * den - num) == den;
    if lo >= 0 {
      MulAtLeast(hi, den);
    } else if hi <= 0 {
      MulAtLeast(-lo, den);
      assert (-lo) * den == -(lo * den);
    } else {
      MulAtLeast(hi, den);
      MulAtLeast(-lo, den);
      assert (-lo) * den == -(lo * den);
    }
  }

  lemma MulAtLeast(a: int, b: int)
    requires a >= 1 && b > 0
    ensures a * b >= b
  {
  }

  /** The raw unsigned little-endian value of slot `v`, bytes `6 + 2v` and `7 + 2v`. */
  function SlotRaw(response: seq<JByte>, v: int): (raw: int)
    requires 0 <= v < SlotCount && |response| >= SlotOffset + 2 * SlotCount
    ensures 0 <= raw < 0x1_0000
  {
    LittleEndian16(response, SlotOffset + 2 * v)
  }

  /** The slot's reading in sixteenths: `reading = raw * 0.0625`, then `reading = -1 * (4096 - reading)`
      when `reading > 2048`. Both steps are exact in `double` for a 16-bit raw value, so the value is
      the 16-bit pattern read as two's complement, with 0x8000 (+2048) kept positive. */
  function SlotSixteenths(response: seq<JByte>, v: int): (s: int)
    requires 0 <= v < SlotCount && |response| >= SlotOffset + 2 * SlotCount
    ensures -0x8000 < s <= 0x8000
    ensures (s - SlotRaw(response, v)) % 0x1_0000 == 0
  {
    var sixteenths := SlotRaw(response, v);
    if sixteenths > 2048 * 16 then -1 * (4096 * 16 - sixteenths) else sixteenths
  }

  /** `BigDecimal.valueOf(reading).setScale(2, RoundingMode.HALF_UP)` as a count of hundredths:
      within 0.005 of the exact reading, and inside (-2048, 2048]. */
  function SlotHundredths(response: seq<JByte>, v: int): (h: int)
    requires 0 <= v < SlotCount && |response| >= SlotOffset + 2 * SlotCount
    ensures 2 * Abs(100 * SlotSixteenths(response, v) - 16 * h) <= 16
    ensures 2 * Abs(100 * SlotSixteenths(response, v) - 16 * h) == 16 ==>
      Abs(16 * h) > Abs(100 * SlotSixteenths(response, v))
    ensures -204800 < h <= 204800
  {
    RoundHalfUp(100 * SlotSixteenths(response, v), 16)
  }

  /** `record Reading(BigDecimal temperature, BigDecimal humidity)`, both at scale 2, held as
      hundredths (the unscaled values). */
  datatype Reading = Reading(temperature: int, humidity: int)

  /** `convertToReadings`: decodes the six slots into a list and returns slots 0 and 3. */
  method ConvertToReadings(response: seq<JByte>) returns (reading: Reading)
    requires |response| >= SlotOffset + 2 * SlotCount
    ensures reading == Reading(SlotHundredths(response, 0), SlotHundredths(response, 3))
  {
    var readings: seq<int> := [];
    for v := 0 to 6
      invariant |readings| == v
      invariant forall k :: 0 <= k < v ==> readings[k] == SlotHundredths(response, k)
    {
      var resultsPosition := 6 + v * 2;
      var raw := Unsigned(response[resultsPosition + 1]) * 256 + Unsigned(response[resultsPosition]);
      var sixteenths := raw;
      if sixteenths > 2048 * 16 {
        sixteenths := -1 * (4096 * 16 - sixteenths);
      }
      readings := readings + [RoundHalfUp(100 * sixteenths, 16)];
    }
    reading := Reading(readings[0], readings[3]);
  }

  /** The temperature depends on bytes 6-7 only, the humidity on bytes 12-13 only. */
  lemma ReadingSelection(a: seq<JByte>, b: seq<JByte>)
    requires |a| >= 18 && |b| >= 18
    ensures a[6] == b[6] && a[7] == b[7] ==> SlotHundredths(a, 0) == SlotHundredths(b, 0)
    ensures a[12] == b[12] && a[13] == b[13] ==> SlotHundredths(a, 3) == SlotHundredths(b, 3)
  {
  }

  // ---------------------------------------------------------------------------
  // Worked frames
  // ---------------------------------------------------------------------------

  /** A sample response whose slot 0 holds `lo hi` and whose slot 3 holds `lo3 hi3`; all else zero. */
  function SampleResponse(lo: JByte, hi: JByte, lo3: JByte, hi3: JByte): (r: seq<JByte>)
    ensures |r| == 18
  {
    [0, 0, 0, 0, 0, 0, lo, hi, 0, 0, 0, 0, lo3, hi3, 0, 0, 0, 0]
  }

  /** The raw values of slots 0 and 3 of a worked response. */
  lemma SampleResponseSlots(lo: JByte, hi: JByte, lo3: JByte, hi3: JByte)
    ensures SlotRaw(SampleResponse(lo, hi, lo3, hi3), 0) == Unsigned(lo) + 256 * Unsigned(hi)
    ensures SlotRaw(SampleResponse(lo, hi, lo3, hi3), 3) == Unsigned(lo3) + 256 * Unsigned(hi3)
  {
    var r := SampleResponse(lo, hi, lo3, hi3);
    assert r[6] == lo && r[7] == hi && r[12] == lo3 && r[13] == hi3;
  }

  /** Counts read from `aa 05 00` and `aa ff 01`. */
  lemma CountExamples()
    ensures AvailableCount([-86, 0x05, 0x00]) == 5
    ensures AvailableCount([-86, -1, 0x01]) == 511
  {
  }

  /** Raw 1 is 0.0625, rounded down to 0.06; raw 2 is the tie 0.125, rounded up to 0.13, and raw 0xfffe
      is -0.125, rounded away from zero to -0.13. */
  lemma RoundingExamples()
    ensures SlotHundredths(SampleResponse(0x01, 0x00, 0x02, 0x00), 0) == 6
    ensures SlotHundredths(SampleResponse(0x01, 0x00, 0x02, 0x00), 3) == 13
    ensures SlotHundredths(SampleResponse(-2, -1, 0, 0), 0) == -13
  {
    SampleResponseSlots(0x01, 0x00, 0x02, 0x00);
    SampleResponseSlots(-2, -1, 0, 0);
  }

  /** Raw 0x0900 is 144.00; raw 0x8000 is exactly 2048 and stays positive; raw 0x8001 is just above
      2048 and wraps to -2047.9375, printed as -2047.94. */
  lemma WrapExamples()
    ensures SlotHundredths(SampleResponse(0x00, 0x09, 0x00, -128), 0) == 14400
    ensures SlotHundredths(SampleResponse(0x00, 0x09, 0x00, -128), 3) == 204800
    ensures SlotHundredths(SampleResponse(0x01, -128, 0, 0), 0) == -204794
  {
    SampleResponseSlots(0x00, 0x09, 0x00, -128);
    SampleResponseSlots(0x01, -128, 0, 0);
  }
}
