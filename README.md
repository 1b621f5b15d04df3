# HelloTinyB ThermoBeacon codec and lookups, in Dafny

This project models the logic of `HelloTinyB.java`, a TinyB example that talks to a WS08
"ThermoBeacon" temperature/humidity sensor over Bluetooth Low Energy. The Bluetooth calls are
left out. What is modelled is the code around them:

- the hex command codec: `hexStringToByteArray` turns a hex string into a `byte[]`, and
  `convertToText` prints a `byte[]` as spaced lowercase hex;
- the count exchange: the command `01 00 00 00 00` and the little-endian sample count in bytes 1-2
  of its response;
- the sample query built in `main` from that count (`index = available - 1`, `%04x`, the two digit
  pairs swapped, `"07" + … + "000003"`);
- `convertToReadings`: six little-endian 16-bit slots from offset 6, scaled by 1/16, wrapped above
  2048, rounded to two decimals with `HALF_UP`, slot 0 returned as temperature and slot 3 as
  humidity;
- the three lookups `getDevice`, `getService` and `getCharacteristic`, as scans over lists of
  address or UUID strings.

Modules, one per part of the program:

- `JavaLang` (`java_lang.dfy`): the Java `byte` (`JByte`, -128..127), the cast `(byte) v`
  (`ToJByte`), the widening `b & 0xFF` (`Unsigned`), the little-endian 16-bit read, and `Option`
  for references that may be `null`.
- `HexCodec` (`hex_codec.dfy`): `hexStringToByteArray`, `convertToText`, `%02x` and `%04x`, and the
  round trips between them.
- `Ws08Protocol` (`ws08_protocol.dfy`): the count decode, the sample-query string, the slot
  decoding and rounding, and `convertToReadings`.
- `GattLookup` (`gatt_lookup.dfy`): `getDevice`, `getService`, `getCharacteristic`.

Modelling decisions:

- A `byte[]` is a `seq<JByte>`. No array in the program is changed after it is filled, so a value
  is enough. `HexStringToByteArray` still fills a local array in a stepping loop, as the source
  does, and returns its contents.
- Readings are exact integers: a slot's value is a count of sixteenths, and a rounded reading is a
  count of hundredths (the unscaled value of a `BigDecimal` at scale 2). For a 16-bit raw value,
  `raw * 0.0625` and `4096 - reading` are exact in `double`. `BigDecimal.valueOf(double)` then
  gives exactly that decimal, so no floating point is needed. `HALF_UP` rounds a tie away from
  zero: 0.125 becomes 0.13 and -0.125 becomes -0.13.
- The Bluetooth library's lists are scripts. `devices(i)` and `services(i)` are what the i-th
  call of `getDevices()` or `getServices()` returns. Each is `None` where the library returns `null`.
  `running(i)` is the value of the static `running` flag at the i-th loop test. The shutdown hook
  that clears it is registered in `main` after `getDevice` returns, so when `main` runs it that
  flag is always set there. A lookup returns the position of the chosen element in the list it
  scanned.
- A count of 0 still sends the sample query. The index -1 prints as `ffffffff` under `%04x`, so
  the query becomes the 8-byte frame `07 ff ff ff ff 00 00 03`.
- `hexStringToByteArray`, the count read and `convertToReadings` have no error results of their
  own. An odd-length or non-hex string, or a response shorter than 3 or 18 bytes, makes the Java
  code throw or produce garbage. The model states these cases as preconditions.
- `getService` and `getCharacteristic` return `null` when nothing matches.

## Model

| member | source | states |
|---|---|---|
| `JavaLang.ToJByte` | examples/java/HelloTinyB.java:103-104 | the `(byte)` cast gives the unique value in -128..127 congruent to its argument modulo 256 |
| `JavaLang.Unsigned` | examples/java/HelloTinyB.java:214 | `b & 0xFF` is the unique value in 0..255 congruent to the byte modulo 256 |
| `JavaLang.LittleEndian16` | examples/java/HelloTinyB.java:258 | `((s[o+1] & 0xFF) << 8) \| (s[o] & 0xFF)` lies in 0..65535; its low byte is `s[o]` and its high byte is `s[o+1]`, both unsigned |
| `JavaLang.LittleEndian16OfEncoding` | examples/java/HelloTinyB.java:258 | two bytes holding the low and high byte of n in 0..65535 read back as n |
| `JavaLang.EncodingOfLittleEndian16` | examples/java/HelloTinyB.java:258 | casting the low and high byte of the value read gives the two bytes back |
| `HexCodec.DigitValue` | examples/java/HelloTinyB.java:103-104 | `Character.digit(c, 16)` of an ASCII hex digit of either case lies in 0..15 |
| `HexCodec.HexDecode` | examples/java/HelloTinyB.java:99-107 | an even-length hex string of 2n characters decodes to n bytes |
| `HexCodec.HexDecodeAt` | examples/java/HelloTinyB.java:102-105 | byte k is `(byte)(16 * digit(s[2k]) + digit(s[2k+1]))`: its unsigned value is exactly that sum, for digits of either case |
| `HexCodec.HexStringToByteArray` | examples/java/HelloTinyB.java:99-107 | the stepping loop that fills `data[i / 2]` returns exactly `HexDecode(s)` |
| `HexCodec.HexDecodeAppend` | examples/java/HelloTinyB.java:99-107 | decoding a concatenation of even-length hex strings concatenates their decodings |
| `HexCodec.ByteHex` | examples/java/HelloTinyB.java:272 | `%02x` of a byte is two lowercase hex digits whose value is the byte read unsigned |
| `HexCodec.HexDump` | examples/java/HelloTinyB.java:269-279 | the text for n bytes has length 3n-1, and "" for no bytes |
| `HexCodec.HexDumpGroup` | examples/java/HelloTinyB.java:271-273 | characters 3k and 3k+1 of the text are the `%02x` group of byte k |
| `HexCodec.HexDumpSpace` | examples/java/HelloTinyB.java:274-276 | a character of the text is a space exactly at positions 3k+2, so there is a single space between groups and none at the end |
| `HexCodec.ConvertToText` | examples/java/HelloTinyB.java:269-279 | the `StringBuilder` loop returns exactly `HexDump(results)` |
| `HexCodec.DumpOfDecode` | examples/java/HelloTinyB.java:269-279 | `convertToText(hexStringToByteArray(s))` is `s` lower-cased with a space between character pairs, for every even-length hex string |
| `HexCodec.DecodeOfDump` | examples/java/HelloTinyB.java:269-279 | `hexStringToByteArray` of the `convertToText` text with its spaces removed gives the bytes back |
| `HexCodec.HexDigits` | examples/java/HelloTinyB.java:224 | `%x` of a non-negative value is lowercase hex with the value's digits; the first digit is '0' exactly when the value is 0, so there are no leading zeros; at most 4 digits below 0x10000 |
| `HexCodec.HexDigitsLength` | examples/java/HelloTinyB.java:224 | a value in 16^(k-1)..16^k-1 prints as exactly k digits |
| `HexCodec.ZeroPad` | examples/java/HelloTinyB.java:224 | zero-padding to the `%04x` width keeps the value and gives at least 4 characters |
| `HexCodec.Format04x` | examples/java/HelloTinyB.java:224 | `String.format("%04x", n)` for a Java `int` is lowercase hex of at least 4 digits worth n mod 2^32: exactly 4 digits for n in 0..65535, and exactly 8 for a negative n |
| `Ws08Protocol.CountQueryFrame` | examples/java/HelloTinyB.java:212 | the count command "0100000000" is the frame `01 00 00 00 00` |
| `Ws08Protocol.AvailableCount` | examples/java/HelloTinyB.java:214 | the available count lies in 0..65535, and its low and high byte are response bytes 1 and 2 |
| `Ws08Protocol.AvailableCountOfEncoding` | examples/java/HelloTinyB.java:214 | a response holding n little-endian in bytes 1-2 decodes to n, whatever its other bytes |
| `Ws08Protocol.AvailableCountIgnoresOtherBytes` | examples/java/HelloTinyB.java:214 | byte 0 and bytes 3 onward do not affect the count |
| `Ws08Protocol.SampleQueryHex` | examples/java/HelloTinyB.java:220-228 | the query string for a count in 0..65535 is a valid even-length hex string: 12 characters, or 16 when the count is 0 |
| `Ws08Protocol.HexDigitsOfMax` | examples/java/HelloTinyB.java:224 | `%04x` of -1 is "ffffffff" |
| `Ws08Protocol.SampleQueryFrame` | examples/java/HelloTinyB.java:220-228 | for a count in 1..65535 the query decodes to `07 lo hi 00 00 03`, and `lo hi` read little-endian is `available - 1` |
| `Ws08Protocol.SwappedQueryLayout` | examples/java/HelloTinyB.java:226-228 | swapping the two digit pairs puts the low byte of the index first in the frame |
| `Ws08Protocol.FourDigitValue` | examples/java/HelloTinyB.java:224-226 | the first digit pair of a four-digit `%04x` string is the high byte of the value, and the second is the low byte |
| `Ws08Protocol.SampleQueryWhenEmpty` | examples/java/HelloTinyB.java:220-228 | a count of 0 is not skipped: the query is "07ffffffff000003", the 8-byte frame `07 ff ff ff ff 00 00 03` |
| `Ws08Protocol.RoundHalfUp` | examples/java/HelloTinyB.java:263 | `HALF_UP` rounding of num/den is within half a unit, and a tie goes away from zero |
| `Ws08Protocol.RoundHalfUpUnique` | examples/java/HelloTinyB.java:263 | those two conditions determine the rounded value uniquely |
| `Ws08Protocol.SlotRaw` | examples/java/HelloTinyB.java:257-258 | slot v is read unsigned from bytes 6+2v and 7+2v, in 0..65535 |
| `Ws08Protocol.SlotSixteenths` | examples/java/HelloTinyB.java:258-262 | a slot's value in sixteenths lies in (-2048, 2048] and is congruent to the raw value modulo 65536 (raw/16, or raw/16 - 4096 above 2048) |
| `Ws08Protocol.SlotHundredths` | examples/java/HelloTinyB.java:263 | the rounded reading is a whole number of hundredths within 0.005 of the slot's exact value, a tie going away from zero (`HALF_UP`), inside (-2048, 2048] |
| `Ws08Protocol.ConvertToReadings` | examples/java/HelloTinyB.java:254-267 | the loop over the six slots returns `Reading(slot 0, slot 3)`, each rounded to hundredths |
| `Ws08Protocol.ReadingSelection` | examples/java/HelloTinyB.java:266 | the temperature depends only on bytes 6-7, and the humidity only on bytes 12-13 |
| `Ws08Protocol.CountExamples` | examples/java/HelloTinyB.java:214 | `aa 05 00` gives 5 and `aa ff 01` gives 511 |
| `Ws08Protocol.RoundingExamples` | examples/java/HelloTinyB.java:263 | raw 1 gives 0.06, raw 2 (0.125) gives 0.13, and raw 0xfffe (-0.125) gives -0.13 |
| `Ws08Protocol.WrapExamples` | examples/java/HelloTinyB.java:259-263 | raw 0x0900 gives 144.00, raw 0x8000 stays 2048.00, and raw 0x8001 wraps to -2047.94 |
| `GattLookup.LastIndexOf` | examples/java/HelloTinyB.java:37-44 | the position of the last element equal to the target, and `None` exactly when there is none |
| `GattLookup.ScanForLast` | examples/java/HelloTinyB.java:69-73 | the overwrite-on-match loop ends on the last match, or leaves the variable unchanged when nothing matches |
| `GattLookup.GetDevice` | examples/java/HelloTinyB.java:29-52 | at most 15 snapshots are taken, each only while `running` holds; every snapshot before the last had no match; a found device is the last match of the last snapshot; `null` means a `null` list, or 15 polls or a cleared flag with no match anywhere |
| `GattLookup.GetService` | examples/java/HelloTinyB.java:60-77 | polling goes on only while the list is empty and `running` holds; it ends at the first `null` list, non-empty list or cleared flag; the result is the last match in that final list, or `null` |
| `GattLookup.GetCharacteristic` | examples/java/HelloTinyB.java:79-89 | the first characteristic with the UUID; `null` when the list is `null` or holds none |

## Left out

- The TinyB library (`BluetoothManager`, `BluetoothDevice`, `BluetoothGattService`,
  `BluetoothGattCharacteristic`) is foreign JNI code. Discovery start and stop, `connect`,
  `disconnect`, `writeValue` and `readValue` are not modelled: `writeBytes`
  (HelloTinyB.java:91-95) is the hex encoding followed by those calls, and only the encoding is
  modelled. The lists those calls return are the scripts described above.
- `main`'s control flow (HelloTinyB.java:116-250) is not modelled: argument check, the order of
  discovery, connection and lookups, `System.exit` on each failure, the polling loop and its
  catch-all `try`/`catch`. Only the frame computations inside it are modelled.
- Timing and concurrency are not modelled: `Thread.sleep(4000)`, the shutdown hook, the
  `ReentrantLock`/`Condition` wait of one second, and the cross-thread visibility of `running`.
- Console output is not modelled: `printDevice`, the `%04d` index print (line 222), the printed
  list of all six slots (line 265), and the other `System.out`/`System.err` lines.
- `HexCodec.HexStringToByteArray`: does not model odd-length input or characters other than ASCII
  hex digits. There the Java code throws from `charAt(i + 1)`, or `Character.digit` returns -1,
  or it accepts non-ASCII Unicode digits. These inputs are preconditions.
- `Ws08Protocol.AvailableCount`: does not model responses shorter than 3 bytes, which make the Java
  code throw `ArrayIndexOutOfBoundsException`. This is a precondition.
- `Ws08Protocol.ConvertToReadings`: does not model responses shorter than 18 bytes, which make the
  Java code throw. This is a precondition. The six-value list is local, as in the source, and
  only slots 0 and 3 are returned.
- `Ws08Protocol.SampleQueryHex`: is defined only for the counts 0..65535 that the count decode can
  produce.
- `GattLookup.GetService`: does not model a run in which the list stays empty and `running` stays
  set forever. In that case the Java loop never ends. The ghost parameter `bound` names a poll at
  which the loop is sure to stop.
- Devices, services and characteristics are reduced to their address or UUID strings. Object
  identity and the `get…()` calls on them are not modelled.
