/** The few pieces of Java semantics the ThermoBeacon codec depends on:
    the signed `byte`, the narrowing cast `(byte) v`, the widening `b & 0xFF`,
    a little-endian 16-bit read built from them, and `null` as an absent value. */
module JavaLang {

  /** A Java `byte`: a signed two's-complement 8-bit value. */
  type JByte = x: int | -128 <= x < 128

  /** A Java reference that may be `null`. */
  datatype Option<+T> = None | Some(value: T)

  /** The narrowing cast `(byte) v`: keep the low 8 bits of `v` and read them as two's complement. */
  function ToJByte(v: int): (b: JByte)
    ensures (b - v) % 256 == 0
  {
    var low := v % 256;
    if low < 128 then low else low - 256
  }

  /** `b & 0xFF` after Java widens `b` to `int`: the byte read as an unsigned value. */
  function Unsigned(b: JByte): (u: int)
    ensures 0 <= u < 256
    ensures (u - b) % 256 == 0
  {
    if b < 0 then b + 256 else b
  }

  /** The cast undoes the widening: `(byte) (b & 0xFF) == b`. */
  lemma ToJByteOfUnsigned(b: JByte)
    ensures ToJByte(Unsigned(b)) == b
  {
  }

  /** The widening undoes the cast on 0..255. */
  lemma UnsignedOfToJByte(v: int)
    requires 0 <= v < 256
    ensures Unsigned(ToJByte(v)) == v
  {
  }

  /** `((s[o + 1] & 0xFF) << 8) | (s[o] & 0xFF)`: the unsigned little-endian 16-bit value at offset `o`.
      The two shifted halves do not overlap, so `|` is `+`. */
  function LittleEndian16(s: seq<JByte>, o: nat): (n: int)
    requires o + 1 < |s|
    ensures 0 <= n < 0x1_0000
    ensures n % 256 == Unsigned(s[o]) && n / 256 == Unsigned(s[o + 1])
  {
    Unsigned(s[o]) + 256 * Unsigned(s[o + 1])
  }

  /** Reading back what was written: two bytes holding the low and high byte of `n` decode to `n`. */
  lemma LittleEndian16OfEncoding(s: seq<JByte>, o: nat, n: int)
    requires o + 1 < |s| && 0 <= n < 0x1_0000
    requires s[o] == ToJByte(n % 256) && s[o + 1] == ToJByte(n / 256)
    ensures LittleEndian16(s, o) == n
  {
    UnsignedOfToJByte(n % 256);
    UnsignedOfToJByte(n / 256);
  }

  /** And the other way: writing out the value read gives the two bytes back. */
  lemma EncodingOfLittleEndian16(s: seq<JByte>, o: nat)
    requires o + 1 < |s|
    ensures s[o] == ToJByte(LittleEndian16(s, o) % 256)
    ensures s[o + 1] == ToJByte(LittleEndian16(s, o) / 256)
  {
    ToJByteOfUnsigned(s[o]);
    ToJByteOfUnsigned(s[o + 1]);
  }
}
