/** The hex text codec of HelloTinyB: commands are written as hex strings and
    turned into bytes (`hexStringToByteArray`), responses are shown as spaced
    lowercase hex pairs (`convertToText`), and the sample index is printed with
    `String.format("%04x", index)`. */
module HexCodec {
  import opened JavaLang

  // ---------------------------------------------------------------------------
  // Hex digits
  // ---------------------------------------------------------------------------

  /** The characters on which `Character.digit(c, 16)` is used here: ASCII hex digits of either case. */
  predicate IsHexDigit(c: char) {
    '0' <= c <= '9' || 'a' <= c <= 'f' || 'A' <= c <= 'F'
  }

  predicate IsHexString(s: string) {
    forall i :: 0 <= i < |s| ==> IsHexDigit(s[i])
  }

  /** A digit as `Formatter` writes it under `%x`: 0-9 and a-f only. */
  predicate IsLowerHexDigit(c: char) {
    '0' <= c <= '9' || 'a' <= c <= 'f'
  }

  predicate IsLowerHexString(s: string) {
    forall i :: 0 <= i < |s| ==> IsLowerHexDigit(s[i])
  }

  /** `Character.digit(c, 16)` on an ASCII hex digit. */
  function DigitValue(c: char): (d: int)
    requires IsHexDigit(c)
    ensures 0 <= d < 16
  {
    if '0' <= c <= '9' then c as int - '0' as int
    else if 'a' <= c <= 'f' then c as int - 'a' as int + 10
    else c as int - 'A' as int + 10
  }

  /** The digit `Formatter` writes for 0..15 under `%x`. */
  function LowerDigit(d: int): (c: char)
    requires 0 <= d < 16
    ensures IsLowerHexDigit(c)
  {
    if d < 10 then ('0' as int + d) as char else ('a' as int + d - 10) as char
  }

  /** ASCII lower-casing, enough for hex digits. */
  function ToLower(c: char): char {
    if 'A' <= c <= 'Z' then (c as int + 32) as char else c
  }

  function LowerString(s: string): (r: string)
    ensures |r| == |s| && forall i :: 0 <= i < |s| ==> r[i] == ToLower(s[i])
  {
    seq(|s|, i requires 0 <= i < |s| => ToLower(s[i]))
  }

  /** Parsing and printing a digit are inverse: printing the value of `c` gives `c` in lower case... */
  lemma LowerDigitOfDigitValue(c: char)
    requires IsHexDigit(c)
    ensures LowerDigit(DigitValue(c)) == ToLower(c)
  {
  }

  /** ... and parsing a printed digit gives the value back. */
  lemma DigitValueOfLowerDigit(d: int)
    requires 0 <= d < 16
    ensures IsHexDigit(LowerDigit(d)) && DigitValue(LowerDigit(d)) == d
  {
  }

  // ---------------------------------------------------------------------------
  // hexStringToByteArray
  // ---------------------------------------------------------------------------

  /** The byte written for the character pair `hi lo`:
      `(byte) ((Character.digit(hi, 16) << 4) + Character.digit(lo, 16))`. */
  function PairByte(hi: char, lo: char): JByte
    requires IsHexDigit(hi) && IsHexDigit(lo)
  {
    ToJByte(DigitValue(hi) * 16 + DigitValue(lo))
  }

  /** The byte of a pair, read unsigned, is the pair's two-digit value. */
  lemma PairByteUnsigned(hi: char, lo: char)
    requires IsHexDigit(hi) && IsHexDigit(lo)
    ensures Unsigned(PairByte(hi, lo)) == 16 * DigitValue(hi) + DigitValue(lo)
  {
    UnsignedOfToJByte(DigitValue(hi) * 16 + DigitValue(lo));
  }

  /** What `hexStringToByteArray(s)` returns for an even-length hex string:
      one byte per character pair. */
  function HexDecode(s: string): (bytes: seq<JByte>)
    requires |s| % 2 == 0 && IsHexString(s)
    ensures |bytes| == |s| / 2
    decreases |s|
  {
    if s == [] then [] else [PairByte(s[0], s[1])] + HexDecode(s[2..])
  }

  /** Byte `k` of the decoding comes from characters `2k` (high nibble) and `2k + 1` (low nibble). */
  lemma {:induction false} HexDecodeAt(s: string, k: nat)
    requires |s| % 2 == 0 && IsHexString(s) && k < |s| / 2
    ensures HexDecode(s)[k] == PairByte(s[2 * k], s[2 * k + 1])
    ensures Unsigned(HexDecode(s)[k]) == 16 * DigitValue(s[2 * k]) + DigitValue(s[2 * k + 1])
    decreases k
  {
    PairByteUnsigned(s[2 * k], s[2 * k + 1]);
    if k > 0 {
      var tail := s[2..];
      assert IsHexString(tail) by {
        forall i | 0 <= i < |tail| ensures IsHexDigit(tail[i]) {
          assert tail[i] == s[i + 2];
        }
      }
      assert HexDecode(s)[k] == HexDecode(tail)[k - 1];
      assert tail[2 * (k - 1)] == s[2 * k] && tail[2 * (k - 1) + 1] == s[2 * k + 1];
      HexDecodeAt(tail, k - 1);
    }
  }

  /** `hexStringToByteArray`: fills a fresh `byte[len / 2]`, stepping two characters at a time.
      Odd lengths (where `charAt(i + 1)` overruns) and non-hex characters (where
      `Character.digit` yields -1) are outside what the callers pass. */
  method HexStringToByteArray(s: string) returns (bytes: seq<JByte>)
    requires |s| % 2 == 0 && IsHexString(s)
    ensures bytes == HexDecode(s)
  {
    var len := |s|;
    var data := new JByte[len / 2];
    var i := 0;
    while i < len
      invariant 0 <= i <= len && i % 2 == 0
      invariant forall k :: 0 <= k < i / 2 ==> data[k] == PairByte(s[2 * k], s[2 * k + 1])
    {
      data[i / 2] := ToJByte(DigitValue(s[i]) * 16 + DigitValue(s[i + 1]));
      i := i + 2;
    }
    bytes := data[..];
    forall k | 0 <= k < |bytes| ensures bytes[k] == HexDecode(s)[k] {
      HexDecodeAt(s, k);
    }
  }

  /** Decoding a concatenation decodes each half. */
  lemma {:induction false} HexDecodeAppend(a: string, b: string)
    requires |a| % 2 == 0 && IsHexString(a) && |b| % 2 == 0 && IsHexString(b)
    ensures IsHexString(a + b) && HexDecode(a + b) == HexDecode(a) + HexDecode(b)
    decreases |a|
  {
    HexStringAppend(a, b);
    if a != [] {
      var ab, rest := a + b, a[2..];
      HexDecodeCons(a);
      HexDecodeCons(ab);
      DropAppend(a, b, 2);
      assert ab[0] == a[0] && ab[1] == a[1];
      HexDecodeAppend(rest, b);
      AppendAssoc([PairByte(a[0], a[1])], HexDecode(rest), HexDecode(b));
    } else {
      assert a + b == b;
    }
  }

  lemma DropAppend<T>(a: seq<T>, b: seq<T>, n: nat)
    requires n <= |a|
    ensures (a + b)[n..] == a[n..] + b
  {
  }

  lemma AppendAssoc<T>(x: seq<T>, y: seq<T>, z: seq<T>)
    ensures x + (y + z) == (x + y) + z
  {
  }

  /** Decoding takes the first character pair off as the first byte. */
  lemma HexDecodeCons(s: string)
    requires |s| % 2 == 0 && IsHexString(s) && s != []
    ensures IsHexString(s[2..]) && HexDecode(s) == [PairByte(s[0], s[1])] + HexDecode(s[2..])
  {
    HexStringDrop(s, 2);
  }

  /** Hex strings are closed under concatenation... */
  lemma HexStringAppend(a: string, b: string)
    requires IsHexString(a) && IsHexString(b)
    ensures IsHexString(a + b)
  {
    forall i | 0 <= i < |a + b| ensures IsHexDigit((a + b)[i]) {
      if i >= |a| { assert (a + b)[i] == b[i - |a|]; }
    }
  }

  /** ... and under dropping a prefix. */
  lemma HexStringDrop(s: string, n: nat)
    requires IsHexString(s) && n <= |s|
    ensures IsHexString(s[n..])
  {
    forall i | 0 <= i < |s| - n ensures IsHexDigit(s[n..][i]) {
      assert s[n..][i] == s[n + i];
    }
  }

  // ---------------------------------------------------------------------------
  // convertToText
  // ---------------------------------------------------------------------------

  /** `String.format("%02x", b)`: two lowercase hex digits; a negative byte prints as its unsigned value. */
  function ByteHex(b: JByte): (t: string)
    ensures |t| == 2 && IsLowerHexDigit(t[0]) && IsLowerHexDigit(t[1])
    ensures 16 * DigitValue(t[0]) + DigitValue(t[1]) == Unsigned(b)
  {
    DigitValueOfLowerDigit(Unsigned(b) / 16);
    DigitValueOfLowerDigit(Unsigned(b) % 16);
    [LowerDigit(Unsigned(b) / 16), LowerDigit(Unsigned(b) % 16)]
  }

  /** What `convertToText(bytes)` returns: the `%02x` groups of the bytes, a single space between
      neighbours, none at the end. */
  function HexDump(bytes: seq<JByte>): (text: string)
    ensures |text| == if bytes == [] then 0 else 3 * |bytes| - 1
    decreases |bytes|
  {
    if |bytes| <= 1 then
      (if bytes == [] then "" else ByteHex(bytes[0]))
    else
      HexDump(bytes[..|bytes| - 1]) + " " + ByteHex(bytes[|bytes| - 1])
  }

  /** Group `k` of the dump (characters 3k and 3k+1) is the `%02x` of byte `k`. */
  lemma {:induction false} HexDumpGroup(bytes: seq<JByte>, k: nat)
    requires k < |bytes|
    ensures HexDump(bytes)[3 * k..3 * k + 2] == ByteHex(bytes[k])
    decreases |bytes|
  {
    var n := |bytes|;
    if n > 1 {
      var front := bytes[..n - 1];
      var t := HexDump(bytes);
      assert t == HexDump(front) + " " + ByteHex(bytes[n - 1]);
      if k < n - 1 {
        HexDumpGroup(front, k);
        assert t[3 * k..3 * k + 2] == HexDump(front)[3 * k..3 * k + 2];
      } else {
        assert t[3 * k..3 * k + 2] == t[|HexDump(front)| + 1..];
      }
    }
  }

  /** Position `i` of the dump is a space exactly when it falls between two groups. */
  lemma {:induction false} HexDumpSpace(bytes: seq<JByte>, i: nat)
    requires i < |HexDump(bytes)|
    ensures HexDump(bytes)[i] == ' ' <==> i % 3 == 2
    decreases |bytes|
  {
    var n := |bytes|;
    if n > 1 {
      var front := bytes[..n - 1];
      var m := |HexDump(front)|;
      var t := HexDump(bytes);
      assert t == HexDump(front) + " " + ByteHex(bytes[n - 1]);
      assert m == 3 * (n - 2) + 2;
      if i < m {
        HexDumpSpace(front, i);
        assert t[i] == HexDump(front)[i];
      } else if i == m {
        assert t[i] == ' ';
        assert i % 3 == 2;
      } else {
        var g := ByteHex(bytes[n - 1]);
        assert t[i] == g[i - m - 1];
        assert g[0] != ' ' && g[1] != ' ';
        assert i == 3 * (n - 1) + (i - m - 1);
      }
    } else if n == 1 {
      var g := ByteHex(bytes[0]);
      assert g[0] != ' ' && g[1] != ' ';
    }
  }

  /** The dump of a prefix one byte longer adds a space (unless it was empty) and that byte's group. */
  lemma HexDumpSnoc(bytes: seq<JByte>, v: nat)
    requires v < |bytes|
    ensures HexDump(bytes[..v + 1]) ==
      (if v == 0 then "" else HexDump(bytes[..v]) + " ") + ByteHex(bytes[v])
  {
    assert bytes[..v + 1][..v] == bytes[..v];
    assert bytes[..v + 1][v] == bytes[v];
  }

  /** `convertToText`: appends each byte's `%02x` group to a `StringBuilder`, and a space after every
      byte but the last. */
  method ConvertToText(results: seq<JByte>) returns (text: string)
    ensures text == HexDump(results)
  {
    var hexResults := "";
    for v := 0 to |results|
      invariant hexResults == if v == 0 then "" else if v < |results| then HexDump(results[..v]) + " " else HexDump(results[..v])
    {
      ghost var before := hexResults;
      assert before == if v == 0 then "" else HexDump(results[..v]) + " ";
      var hexValue := ByteHex(results[v]);
      hexResults := hexResults + hexValue;
      HexDumpSnoc(results, v);
      assert hexResults == HexDump(results[..v + 1]);
      if v < |results| - 1 {
        hexResults := hexResults + " ";
      }
    }
    assert results[..|results|] == results;
    text := hexResults;
  }

  // ---------------------------------------------------------------------------
  // Round trips between the two directions
  // ---------------------------------------------------------------------------

  /** A string of character pairs with one space between consecutive pairs. */
  function SpacedPairs(s: string): (r: string)
    requires |s| % 2 == 0
    decreases |s|
  {
    if |s| <= 2 then s else SpacedPairs(s[..|s| - 2]) + " " + s[|s| - 2..]
  }

  /** The dumped group of a decoded pair is the pair in lower case. */
  lemma ByteHexOfPair(hi: char, lo: char)
    requires IsHexDigit(hi) && IsHexDigit(lo)
    ensures ByteHex(PairByte(hi, lo)) == [ToLower(hi), ToLower(lo)]
  {
    var u := DigitValue(hi) * 16 + DigitValue(lo);
    UnsignedOfToJByte(u);
    assert Unsigned(PairByte(hi, lo)) == u;
    assert u / 16 == DigitValue(hi) && u % 16 == DigitValue(lo);
    LowerDigitOfDigitValue(hi);
    LowerDigitOfDigitValue(lo);
  }

  /** Decoding peels the last character pair off as the last byte. */
  lemma HexDecodeSnoc(s: string)
    requires |s| % 2 == 0 && IsHexString(s) && s != []
    ensures IsHexString(s[..|s| - 2])
    ensures HexDecode(s) == HexDecode(s[..|s| - 2]) + [PairByte(s[|s| - 2], s[|s| - 1])]
  {
    var n := |s|;
    var front, last := s[..n - 2], s[n - 2..];
    assert s == front + last;
    assert IsHexString(front) && IsHexString(last) by {
      assert forall i :: 0 <= i < |front| ==> front[i] == s[i];
      assert forall i :: 0 <= i < |last| ==> last[i] == s[n - 2 + i];
    }
    HexDecodeAppend(front, last);
    assert HexDecode(last) == [PairByte(s[n - 2], s[n - 1])] by {
      assert last[2..] == [];
    }
  }

  /** Lower-casing peels the last character pair off as the last two lower-cased characters. */
  lemma LowerStringSnoc(s: string)
    requires 2 <= |s|
    ensures LowerString(s)[..|s| - 2] == LowerString(s[..|s| - 2])
    ensures LowerString(s)[|s| - 2..] == [ToLower(s[|s| - 2]), ToLower(s[|s| - 1])]
  {
  }

  /** `convertToText(hexStringToByteArray(s))` is `s` in lower case, split into spaced pairs. */
  lemma {:induction false} DumpOfDecode(s: string)
    requires |s| % 2 == 0 && IsHexString(s)
    ensures HexDump(HexDecode(s)) == SpacedPairs(LowerString(s))
    decreases |s|
  {
    if s != [] {
      var n := |s|;
      var front := s[..n - 2];
      var pair := PairByte(s[n - 2], s[n - 1]);
      HexDecodeSnoc(s);
      ByteHexOfPair(s[n - 2], s[n - 1]);
      LowerStringSnoc(s);
      var lower := LowerString(s);
      if front == [] {
        assert HexDecode(s) == [pair];
        assert lower == lower[n - 2..];
      } else {
        DumpOfDecode(front);
        HexDumpAppendOne(HexDecode(front), pair);
        assert SpacedPairs(lower) == SpacedPairs(lower[..n - 2]) + " " + lower[n - 2..];
      }
    }
  }

  /** Dumping one more byte adds a space and its group. */
  lemma HexDumpAppendOne(front: seq<JByte>, last: JByte)
    requires front != []
    ensures HexDump(front + [last]) == HexDump(front) + " " + ByteHex(last)
  {
    var b := front + [last];
    assert b[..|b| - 1] == front;
  }

  /** `s` with every space removed. */
  function Unspaced(s: string): string
    decreases |s|
  {
    if s == [] then []
    else (if s[|s| - 1] == ' ' then Unspaced(s[..|s| - 1]) else Unspaced(s[..|s| - 1]) + [s[|s| - 1]])
  }

  lemma {:induction false} UnspacedAppend(a: string, b: string)
    ensures Unspaced(a + b) == Unspaced(a) + Unspaced(b)
    decreases |b|
  {
    if b == [] {
      assert a + b == a;
    } else {
      assert (a + b)[..|a + b| - 1] == a + b[..|b| - 1];
      UnspacedAppend(a, b[..|b| - 1]);
    }
  }

  /** A single `%02x` group has no space in it... */
  lemma ByteHexUnspaced(b: JByte)
    ensures Unspaced(ByteHex(b)) == ByteHex(b)
  {
    var g := ByteHex(b);
    assert g[0] != ' ' && g[1] != ' ';
    assert g[..1][..0] == [];
    assert Unspaced(g[..1]) == [g[0]];
    assert g[..|g| - 1] == g[..1];
    assert g == [g[0], g[1]];
  }

  /** ... and decodes to its byte. */
  lemma ByteHexDecodes(b: JByte)
    ensures IsHexString(ByteHex(b)) && HexDecode(ByteHex(b)) == [b]
  {
    var g := ByteHex(b);
    ToJByteOfUnsigned(b);
    assert PairByte(g[0], g[1]) == b;
    assert g[2..] == [];
  }

  /** Decoding the printed text, spaces dropped, gives the bytes back: `convertToText` loses nothing. */
  lemma {:induction false} DecodeOfDump(bytes: seq<JByte>)
    ensures IsHexString(Unspaced(HexDump(bytes))) && |Unspaced(HexDump(bytes))| == 2 * |bytes|
    ensures HexDecode(Unspaced(HexDump(bytes))) == bytes
    decreases |bytes|
  {
    if bytes != [] {
      var last := bytes[|bytes| - 1];
      var g := ByteHex(last);
      ByteHexUnspaced(last);
      ByteHexDecodes(last);
      if |bytes| > 1 {
        var front := bytes[..|bytes| - 1];
        var d := HexDump(front);
        DecodeOfDump(front);
        assert HexDump(bytes) == d + " " + g;
        assert Unspaced(HexDump(bytes)) == Unspaced(d) + g by {
          UnspacedAppend(d + " ", g);
          UnspacedAppend(d, " ");
          assert " "[..0] == [];
        }
        HexDecodeAppend(Unspaced(d), g);
        assert bytes == front + [last];
      }
    }
  }

  // ---------------------------------------------------------------------------
  // String.format("%04x", n)
  // ---------------------------------------------------------------------------

  /** The value of a hex string, most significant digit first. */
  function HexValue(s: string): (n: nat)
    requires IsHexString(s)
    decreases |s|
  {
    if s == [] then 0 else HexValue(s[..|s| - 1]) * 16 + DigitValue(s[|s| - 1])
  }

  /** The digits `%x` prints for a non-negative value: lowercase, no leading zeros, "0" for zero. */
  function HexDigits(u: nat): (s: string)
    ensures 1 <= |s| && IsLowerHexString(s) && IsHexString(s) && HexValue(s) == u
    ensures s[0] == '0' <==> u == 0
    ensures u < 0x10 ==> |s| == 1
    ensures u < 0x100 ==> |s| <= 2
    ensures u < 0x1000 ==> |s| <= 3
    ensures u < 0x1_0000 ==> |s| <= 4
    decreases u
  {
    DigitValueOfLowerDigit(u % 16);
    if u < 16 then
      assert [LowerDigit(u)][..0] == [];
      [LowerDigit(u)]
    else
      var s := HexDigits(u / 16) + [LowerDigit(u % 16)];
      assert s[..|s| - 1] == HexDigits(u / 16);
      assert s[0] == HexDigits(u / 16)[0];
      s
  }

  /** `16^k`. */
  function Pow16(k: nat): (p: nat)
    ensures 1 <= p
  {
    if k == 0 then 1 else 16 * Pow16(k - 1)
  }

  /** A value with `k` significant hex digits prints as exactly `k` digits. */
  lemma {:induction false} HexDigitsLength(u: nat, k: nat)
    requires 1 <= k && Pow16(k - 1) <= u < Pow16(k)
    ensures |HexDigits(u)| == k
    decreases k
  {
    if k > 1 {
      var p := Pow16(k - 2);
      assert Pow16(k - 1) == 16 * p;
      assert u == 16 * (u / 16) + u % 16;
      assert p <= u / 16 < Pow16(k - 1);
      HexDigitsLength(u / 16, k - 1);
    }
  }

  /** Left-padding with '0' up to `width` characters, as the `0` flag of `%04x` does. */
  function ZeroPad(s: string, width: nat): (r: string)
    requires IsLowerHexString(s) && IsHexString(s)
    ensures |r| == if |s| < width then width else |s|
    ensures IsLowerHexString(r) && IsHexString(r) && HexValue(r) == HexValue(s)
    ensures |s| >= width ==> r == s
    decreases width - |s|
  {
    if |s| >= width then s
    else
      ZeroPrefixValue(s);
      ZeroPad("0" + s, width)
  }

  /** A leading '0' does not change a hex value. */
  lemma {:induction false} ZeroPrefixValue(s: string)
    requires IsHexString(s)
    ensures IsHexString("0" + s) && HexValue("0" + s) == HexValue(s)
    decreases |s|
  {
    if s != [] {
      assert ("0" + s)[..|s|] == "0" + s[..|s| - 1];
      ZeroPrefixValue(s[..|s| - 1]);
    } else {
      assert ("0" + s)[..0] == [];
    }
  }

  /** `String.format("%04x", n)` for a Java `int` `n`: at least four lowercase digits, and a negative `n`
      printed as its unsigned 32-bit value. */
  function Format04x(n: int): (r: string)
    requires -0x8000_0000 <= n < 0x8000_0000
    ensures IsLowerHexString(r) && IsHexString(r) && 4 <= |r|
    ensures HexValue(r) == n % 0x1_0000_0000
    ensures 0 <= n < 0x1_0000 ==> |r| == 4
    ensures n < 0 ==> |r| == 8
  {
    var u := if n < 0 then n + 0x1_0000_0000 else n;
    assert u == n % 0x1_0000_0000;
    var digits := HexDigits(u);
    assert 0 <= n < 0x1_0000 ==> |digits| <= 4;
    assert n < 0 ==> |digits| == 8 by {
      if n < 0 {
        assert Pow16(7) == 0x1000_0000 && Pow16(8) == 0x1_0000_0000;
        HexDigitsLength(u, 8);
      }
    }
    ZeroPad(digits, 4)
  }
}
