/**
 * The LYWSD03MMC notification frame and the battery estimate derived from
 * its supply voltage.
 *
 *   byte 0..1  temperature, little-endian unsigned, hundredths of a degree C
 *   byte 2     relative humidity, percent
 *   byte 3..4  supply voltage, little-endian unsigned, millivolts
 *
 * Temperature is kept as the integer number of centi-degrees; the collector
 * divides it by 100 only to print it (see LogFormat.FormatCenti).
 */
module Payload {
  import opened Common

  /** A decoded frame: the four values `decode_thv` returns. */
  datatype Reading = Reading(tempCenti: nat, humidity: nat, millivolts: nat, battery: nat)

  /** Voltage of an empty and of a full cell, in millivolts (2.1 V and 3.1 V). */
  const EMPTY_MV: int := 2100
  const FULL_MV: int := 3100

  /** The smallest frame `decode_thv` accepts. */
  const FRAME_LEN: nat := 5

  /**
   * `battery_percent_from_mv`: a linear map of [2100, 3100] mV onto [0, 100],
   * rounded to the nearest integer and clamped. The exact value before
   * rounding is (mv - 2100) / 10; this model rounds halves upward.
   */
  function BatteryPercent(mv: int): (pct: int)
    ensures 0 <= pct <= 100
    ensures mv <= EMPTY_MV ==> pct == 0
    ensures mv >= FULL_MV ==> pct == 100
    ensures EMPTY_MV <= mv <= FULL_MV ==> -5 <= 10 * pct - (mv - EMPTY_MV) <= 5
  {
    var rounded := (mv - EMPTY_MV + 5) / 10;
    if rounded < 0 then 0 else if rounded > 100 then 100 else rounded
  }

  /** More voltage never means a lower battery estimate. */
  lemma BatteryMonotone(mv1: int, mv2: int)
    requires mv1 <= mv2
    ensures BatteryPercent(mv1) <= BatteryPercent(mv2)
  {
    assert (mv1 - EMPTY_MV + 5) / 10 <= (mv2 - EMPTY_MV + 5) / 10;
  }

  /** `int.from_bytes([lo, hi], "little", signed=False)` */
  function U16Le(lo: Byte, hi: Byte): (v: nat)
    ensures v < 65536
  {
    lo + 256 * hi
  }

  /** `decode_thv`: `None` for a frame shorter than five bytes. */
  function DecodeThv(payload: seq<Byte>): (r: Option<Reading>)
    ensures r.None? <==> |payload| < FRAME_LEN
    ensures r.Some? ==> r.value.tempCenti < 65536 && r.value.humidity < 256 && r.value.millivolts < 65536
    ensures r.Some? ==> 0 <= r.value.battery <= 100
  {
    if |payload| < FRAME_LEN then None
    else
      var mv := U16Le(payload[3], payload[4]);
      Some(Reading(U16Le(payload[0], payload[1]), payload[2], mv, BatteryPercent(mv)))
  }

  /** The sensor's side of the frame: the five bytes that carry the three values. */
  function EncodeThv(tempCenti: nat, humidity: nat, millivolts: nat): (frame: seq<Byte>)
    requires tempCenti < 65536 && humidity < 256 && millivolts < 65536
    ensures |frame| == FRAME_LEN
  {
    [tempCenti % 256, tempCenti / 256, humidity, millivolts % 256, millivolts / 256]
  }

  /**
   * Decoding a frame gives back the values it was built from, whatever bytes
   * follow the fifth.
   */
  lemma DecodeEncode(tempCenti: nat, humidity: nat, millivolts: nat, trailing: seq<Byte>)
    requires tempCenti < 65536 && humidity < 256 && millivolts < 65536
    ensures DecodeThv(EncodeThv(tempCenti, humidity, millivolts) + trailing)
            == Some(Reading(tempCenti, humidity, millivolts, BatteryPercent(millivolts)))
  {
    var f := EncodeThv(tempCenti, humidity, millivolts) + trailing;
    assert U16Le(f[0], f[1]) == tempCenti;
    assert U16Le(f[3], f[4]) == millivolts;
  }

  /** Every accepted frame is one the sensor could have sent: its first five bytes. */
  lemma EncodeDecode(payload: seq<Byte>)
    requires |payload| >= FRAME_LEN
    ensures var r := DecodeThv(payload).value;
            EncodeThv(r.tempCenti, r.humidity, r.millivolts) == payload[..FRAME_LEN]
  {
    var r := DecodeThv(payload).value;
    assert r.tempCenti % 256 == payload[0] && r.tempCenti / 256 == payload[1];
    assert r.millivolts % 256 == payload[3] && r.millivolts / 256 == payload[4];
  }

  /** Only the first five bytes of a frame matter. */
  lemma DecodeIgnoresTrailing(payload: seq<Byte>)
    requires |payload| >= FRAME_LEN
    ensures DecodeThv(payload) == DecodeThv(payload[..FRAME_LEN])
  {
  }

  /** The frame 2E 09 37 AB 0B: 23.50 C, 55 %, 2987 mV, 89 %. */
  lemma DecodeSample()
    ensures DecodeThv([0x2E, 0x09, 0x37, 0xAB, 0x0B]) == Some(Reading(2350, 55, 2987, 89))
  {
  }
}
