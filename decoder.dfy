/**
 * The advertisement payload decoder of the TP357 thermometer. The device
 * abuses the manufacturer-data record: the high byte of the "company id" is
 * the low byte of the temperature, the first payload byte its high byte, and
 * the second payload byte the relative humidity.
 */
module Decoder {
  import opened Types

  /** One manufacturer-data entry: a 16-bit company id and its payload. */
  datatype ManufacturerEntry = Entry(companyId: u16, data: seq<byte>)

  /** A decoded reading: temperature in tenths of a degree and humidity in percent. */
  datatype Reading = Reading(tempTenths: i16, humidity: byte)

  /** The bit pattern of a 16-bit two's-complement value. */
  function Bits16(t: i16): u16 {
    if t >= 0 then t else t + 0x1_0000
  }

  /** i16::from_le_bytes([lo, hi]). */
  function I16FromLeBytes(lo: byte, hi: byte): (t: i16)
    ensures Bits16(t) == lo + 0x100 * hi
  {
    var raw := lo + 0x100 * hi;
    if raw < 0x8000 then raw else raw - 0x1_0000
  }

  /**
   * Decode the first manufacturer-data entry. Only the first entry is ever
   * looked at; a missing entry or a payload of fewer than two bytes yields
   * no reading. The humidity byte is taken as it is (0..255).
   */
  function Decode(entries: seq<ManufacturerEntry>): (r: Option<Reading>)
    ensures r.Some? <==> |entries| > 0 && |entries[0].data| >= 2
    ensures r.Some? ==>
      && Bits16(r.value.tempTenths) == entries[0].companyId / 0x100 + 0x100 * (entries[0].data[0] as int)
      && r.value.humidity == entries[0].data[1]
  {
    if |entries| == 0 || |entries[0].data| < 2 then None
    else
      var e := entries[0];
      Some(Reading(I16FromLeBytes(e.companyId / 0x100, e.data[0]), e.data[1]))
  }

  /**
   * What a thermometer broadcasts for a temperature and a humidity: the
   * company id's low byte is free, and so are the payload bytes after the
   * second one and any further entries.
   */
  function Advertisement(t: i16, hum: byte, companyLow: byte, tail: seq<byte>, others: seq<ManufacturerEntry>)
    : seq<ManufacturerEntry>
  {
    var bits := Bits16(t);
    [Entry((bits % 0x100) * 0x100 + companyLow, [bits / 0x100, hum] + tail)] + others
  }

  /** Decoding what the thermometer broadcasts gives back its temperature and humidity. */
  lemma DecodeAdvertisement(t: i16, hum: byte, companyLow: byte, tail: seq<byte>, others: seq<ManufacturerEntry>)
    ensures Decode(Advertisement(t, hum, companyLow, tail, others)) == Some(Reading(t, hum))
  {
    var bits := Bits16(t);
    var e := Advertisement(t, hum, companyLow, tail, others)[0];
    assert e.companyId / 0x100 == bits % 0x100;
    var r := Decode(Advertisement(t, hum, companyLow, tail, others));
    assert Bits16(r.value.tempTenths) == bits;
    Bits16Injective(r.value.tempTenths, t);
  }

  lemma Bits16Injective(a: i16, b: i16)
    requires Bits16(a) == Bits16(b)
    ensures a == b
  {
  }

  /**
   * Every successful decode is the broadcast of its own reading: the
   * decoder never invents a value the payload does not carry.
   */
  lemma DecodedIsAdvertised(entries: seq<ManufacturerEntry>)
    requires Decode(entries).Some?
    ensures
      var r := Decode(entries).value;
      entries == Advertisement(r.tempTenths, r.humidity, entries[0].companyId % 0x100,
                               entries[0].data[2..], entries[1..])
  {
    var r := Decode(entries).value;
    var e := entries[0];
    var bits := Bits16(r.tempTenths);
    assert bits % 0x100 == e.companyId / 0x100;
    assert bits / 0x100 == e.data[0];
    assert (bits % 0x100) * 0x100 + e.companyId % 0x100 == e.companyId;
    assert [bits / 0x100, r.humidity] + e.data[2..] == e.data;
    assert [e] + entries[1..] == entries;
  }

  /** A negative temperature: bytes 0x9c, 0xff encode -10.0 degrees; humidity 255 passes unchecked. */
  lemma DecodeNegativeExample()
    ensures Decode([Entry(0x9c00, [0xff, 255])]) == Some(Reading(-100, 255))
  {
  }
}
