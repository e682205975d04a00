/** The MLX90614 infrared thermometer driver: a register read returns two
    data bytes, little-endian, and a PEC byte; the 16-bit raw value counts
    0.02 K per unit from absolute zero. Temperatures here are exact
    hundredths of a degree Celsius. The bus is a parameter: what the device
    answers for a register, or `None` when the read raises. */
module Mlx90614 {
  import opened Wrappers

  type Byte = b: int | 0 <= b < 256

  const DefaultAddress: int := 0x5A
  /** Register of the sensor's own (ambient) temperature. */
  const AmbientRegister: int := 0x06
  /** Register of the measured object's temperature. */
  const ObjectRegister: int := 0x07

  /** The three bytes a register read fills: data low, data high, PEC. */
  datatype Frame = Frame(lo: Byte, hi: Byte, pec: Byte)

  /** `(buf[1] << 8) | buf[0]`: shifting a byte left by 8 multiplies it by
      256, and or-ing in a byte below 256 adds it. */
  function Raw(f: Frame): (raw: nat)
    ensures raw < 0x1_0000
    ensures raw % 256 == f.lo && raw / 256 == f.hi
  {
    f.hi * 256 + f.lo
  }

  /** Hundredths of a degree Celsius for a raw reading: 0.02 K per unit,
      0 K being -273.15 C. No reading is below absolute zero, and the raw
      value is recovered from the temperature. */
  function CentiCelsius(raw: nat): (c: int)
    ensures c >= -27315
    ensures (c + 27315) % 2 == 0 && (c + 27315) / 2 == raw
  {
    2 * raw - 27315
  }

  /** Absolute zero reads as -273.15 C, and a larger raw value always
      means a higher temperature. */
  lemma ConversionIsMonotonic(a: nat, b: nat)
    requires a < b
    ensures CentiCelsius(0) == -27315
    ensures CentiCelsius(a) < CentiCelsius(b)
  {
  }

  /** Decoding one register read; a bus error gives `None`, never a
      number. */
  function ReadTemp(reply: Option<Frame>): (t: Option<int>)
    ensures reply.None? <==> t.None?
    ensures reply.Some? ==> -27315 <= t.value <= 2 * 0xFFFF - 27315
    ensures reply.Some? ==> t.value == 2 * (reply.value.hi * 256 + reply.value.lo) - 27315
  {
    match reply
    case None => None
    case Some(f) => Some(CentiCelsius(Raw(f)))
  }

  /** The frame a device holding `raw` sends, with the given PEC byte. */
  function FrameOf(raw: nat, pec: Byte): Frame
    requires raw < 0x1_0000
  {
    Frame(raw % 256, raw / 256, pec)
  }

  /** Little-endian framing round-trips, and the PEC byte plays no part in
      the value. */
  lemma FramingRoundTrip(raw: nat, pec: Byte, f: Frame)
    requires raw < 0x1_0000
    ensures Raw(FrameOf(raw, pec)) == raw
    ensures FrameOf(Raw(f), f.pec) == f
    ensures forall p: Byte :: Raw(f.(pec := p)) == Raw(f)
  {
  }

  /** The raw reading that decodes to a temperature in hundredths, when one
      exists: the conversion is invertible on its range. */
  lemma ConversionInverse(centi: int)
    requires -27315 <= centi <= 2 * 0xFFFF - 27315
    requires (centi + 27315) % 2 == 0
    ensures var raw := (centi + 27315) / 2;
            raw < 0x1_0000 && CentiCelsius(raw) == centi
            && ReadTemp(Some(FrameOf(raw, 0))) == Some(centi)
  {
  }

  function ReadAmbientTemp(bus: int -> Option<Frame>): Option<int>
  {
    ReadTemp(bus(AmbientRegister))
  }

  function ReadObjectTemp(bus: int -> Option<Frame>): Option<int>
  {
    ReadTemp(bus(ObjectRegister))
  }

  /** `read_both`: object temperature first, ambient second. */
  function ReadBoth(bus: int -> Option<Frame>): (r: (Option<int>, Option<int>))
    ensures r.0 == ReadTemp(bus(0x07)) && r.1 == ReadTemp(bus(0x06))
  {
    (ReadObjectTemp(bus), ReadAmbientTemp(bus))
  }
}
