/**
 The packed layout of the SwitchBot TH service-data payload, stated with
 plain arithmetic on byte values. The decoders work with the bit masks the
 firmware format is written in; the definitions here are the independent
 reference they are proved against, and `Encode` is their inverse.

 Byte indices are 0-based. Bytes 0 and 1 carry no measurement.
   byte 2: bit 7 unused, bits 0-6 battery percentage
   byte 3: bits 4-7 unused, bits 0-3 tenths of a degree
   byte 4: bit 7 set for "zero or above", bits 0-6 whole degrees
   byte 5: bit 7 unused, bits 0-6 relative humidity percentage
 */
module Layout {

  /** One payload byte, as the transport delivers it (an unsigned 8-bit value). */
  type byte = bv8

  /** The only payload length the exporter decodes. */
  const PAYLOAD_LENGTH: nat := 6

  /** The byte whose value is n. */
  function ByteOf(n: int): (b: byte)
    requires 0 <= n < 256
    ensures b as int == n
  {
    n as byte
  }

  /** The low seven bits of a byte, as a number. */
  function Low7(b: byte): int
  {
    b as int % 128
  }

  /** The low four bits of a byte, as a number. */
  function LowNibble(b: byte): int
  {
    b as int % 16
  }

  /** Whether bit 7 of a byte is set. */
  predicate HighBit(b: byte)
  {
    b as int >= 128
  }

  /** The seven-bit mask computes `Low7`. */
  lemma Low7Mask(b: byte)
    ensures (b & 0x7F) as int == Low7(b)
  {
  }

  /** The four-bit mask computes `LowNibble`. */
  lemma LowNibbleMask(b: byte)
    ensures (b & 0x0F) as int == LowNibble(b)
  {
  }

  /** Testing bit 7 by mask computes `HighBit`. */
  lemma HighBitMask(b: byte)
    ensures (b & 0x80 > 0) <==> HighBit(b)
  {
  }

  /** The temperature magnitude in tenths of a degree: whole degrees from
      byte 4 and the tenths nibble of byte 3, which can run up to 15. */
  function MagnitudeTenths(data: seq<byte>): (t: int)
    requires |data| >= PAYLOAD_LENGTH
    ensures 0 <= t <= 1285
  {
    10 * Low7(data[4]) + LowNibble(data[3])
  }

  /** The signed temperature in tenths of a degree: positive magnitude when
      bit 7 of byte 4 is set, negative magnitude when it is clear. */
  function SignedTenths(data: seq<byte>): int
    requires |data| >= PAYLOAD_LENGTH
  {
    if HighBit(data[4]) then MagnitudeTenths(data) else -MagnitudeTenths(data)
  }

  /** What the decoders' masks compute, in terms of the reference fields:
      battery and humidity are the low seven bits, and the temperature
      (tenths nibble times 0.1 plus whole degrees, negated when the sign bit
      is clear) is the signed tenths over ten, has the sign the sign bit
      announces, and lies within 128.5 degrees of zero. */
  lemma MaskedFields(data: seq<byte>, temperature: real)
    requires |data| >= PAYLOAD_LENGTH
    requires var magnitude := (data[3] & 0x0F) as int as real * 0.1 + (data[4] & 0x7F) as int as real;
             temperature == if data[4] & 0x80 > 0 then magnitude else -magnitude
    ensures (data[2] & 0x7F) as int == Low7(data[2])
    ensures (data[5] & 0x7F) as int == Low7(data[5])
    ensures temperature * 10.0 == SignedTenths(data) as real
    ensures HighBit(data[4]) ==> 0.0 <= temperature
    ensures !HighBit(data[4]) ==> temperature <= 0.0
    ensures -128.5 <= temperature <= 128.5
  {
    Low7Mask(data[2]);
    Low7Mask(data[4]);
    Low7Mask(data[5]);
    LowNibbleMask(data[3]);
    HighBitMask(data[4]);
  }

  /** Readings a sensor can put on the air in canonical form: seven-bit
      battery and humidity, and a temperature whose tenths digit is 0..9. */
  predicate Encodable(battery: int, tenths: int, humidity: int)
  {
    && 0 <= battery < 128
    && 0 <= humidity < 128
    && -1279 <= tenths <= 1279
  }

  /** A canonical payload carrying the given reading: header bytes zero,
      unused bits clear, sign bit set for zero and above. */
  function Encode(battery: int, tenths: int, humidity: int): (data: seq<byte>)
    requires Encodable(battery, tenths, humidity)
    ensures |data| == PAYLOAD_LENGTH
    ensures Low7(data[2]) == battery && !HighBit(data[2])
    ensures Low7(data[5]) == humidity && !HighBit(data[5])
    ensures LowNibble(data[3]) <= 9 && data[3] as int < 16
    ensures HighBit(data[4]) <==> tenths >= 0
    ensures SignedTenths(data) == tenths
  {
    var magnitude := if tenths >= 0 then tenths else -tenths;
    var signBit := if tenths >= 0 then 128 else 0;
    [0, 0, ByteOf(battery), ByteOf(magnitude % 10),
     ByteOf(signBit + magnitude / 10), ByteOf(humidity)]
  }
}
