/**
 * Wire constants, unit conversions and the fixed payload layouts of the two
 * copies of crsf_protocol.h: lib/CrsfSerial/crsf_protocol.h (used by
 * CrsfSerial) and the top-level crsf_protocol.h (used by ArduinoCRSF).
 * Payloads are read and written at explicit byte offsets instead of through
 * the packed struct overlays.
 */
module Protocol {
  import opened Arith
  import opened Bytes

  // ---- sizes and limits ----
  const NUM_CHANNELS := 16
  const BITS_PER_CHANNEL := 11
  const CHANNEL_VALUE_MIN := 172
  const CHANNEL_VALUE_1000 := 191
  const CHANNEL_VALUE_MID := 992
  const CHANNEL_VALUE_2000 := 1792
  const CHANNEL_VALUE_MAX := 1811
  /** lib/CrsfSerial: the whole frame, address and length byte included. */
  const MAX_PACKET_SIZE := 64
  /** lib/CrsfSerial: the payload that fits beside address, length, type and CRC. */
  const MAX_PAYLOAD_LEN := MAX_PACKET_SIZE - 4
  /** top-level crsf_protocol.h (ArduinoCRSF): bound on the declared frame length. */
  const MAX_PACKET_LEN := 64
  const SYNC_BYTE: Byte := 0xC8

  const GPS_PAYLOAD_SIZE := 15
  const BATTERY_SENSOR_PAYLOAD_SIZE := 8
  const LINK_STATISTICS_PAYLOAD_SIZE := 10
  const RC_CHANNELS_PAYLOAD_SIZE := 22
  const ATTITUDE_PAYLOAD_SIZE := 6

  // ---- frame types ----
  const FRAMETYPE_GPS: Byte := 0x02
  const FRAMETYPE_VARIO: Byte := 0x07
  const FRAMETYPE_BATTERY_SENSOR: Byte := 0x08
  const FRAMETYPE_BARO_ALTITUDE: Byte := 0x09
  const FRAMETYPE_AIRSPEED: Byte := 0x0A
  const FRAMETYPE_RPM: Byte := 0x0C
  const FRAMETYPE_TEMP: Byte := 0x0D
  const FRAMETYPE_CELLS: Byte := 0x0E
  const FRAMETYPE_LINK_STATISTICS: Byte := 0x14
  const FRAMETYPE_RC_CHANNELS_PACKED: Byte := 0x16
  const FRAMETYPE_ATTITUDE: Byte := 0x1E
  const FRAMETYPE_COMMAND: Byte := 0x32

  // ---- addresses ----
  const ADDRESS_BROADCAST: Byte := 0x00
  const ADDRESS_FLIGHT_CONTROLLER: Byte := 0xC8
  const ADDRESS_CRSF_RECEIVER: Byte := 0xEC
  const ADDRESS_CRSF_TRANSMITTER: Byte := 0xEE

  // ---- frame header: address@0, frame_size@1, type@2, payload@3 ----
  const OFFSET_ADDRESS := 0
  const OFFSET_FRAME_SIZE := 1
  const OFFSET_TYPE := 2
  const OFFSET_PAYLOAD := 3

  // ---- integer arithmetic as C does it ----

  /** C division of int by a positive divisor: truncates toward zero. */
  function CDiv(a: int, b: int): (q: int)
    requires b > 0
    ensures a >= 0 ==> q == a / b
    ensures a < 0 ==> q == -((-a) / b)
  {
    if a >= 0 then a / b else -((-a) / b)
  }

  // ---- unit conversions (crsf_protocol.h macros) ----

  /** CRSF_to_US: us = crsf * 5 / 8 + 880, applied to an unsigned raw value. */
  function CrsfToUs(crsf: nat): int
  {
    crsf * 5 / 8 + (1500 - 620)
  }

  /** US_to_CRSF: crsf = us * 8 / 5 - 1408, applied to an int (C division). */
  function UsToCrsf(us: int): int
  {
    CDiv(us * 8, 5) + (CHANNEL_VALUE_MID - 2400)
  }

  /** Every 11-bit raw value maps into [880, 2159] us; the calibration points land where documented. */
  lemma CrsfToUsRange(r: nat)
    requires r < 2048
    ensures 880 <= CrsfToUs(r) <= 2159
    ensures CrsfToUs(CHANNEL_VALUE_MIN) == 987 && CrsfToUs(CHANNEL_VALUE_MID) == 1500
    ensures CrsfToUs(0) == 880 && CrsfToUs(2047) == 2159
  {
  }

  lemma CrsfToUsMonotone(a: nat, b: nat)
    requires a <= b
    ensures CrsfToUs(a) <= CrsfToUs(b)
  {
  }

  lemma UsToCrsfMonotone(a: int, b: int)
    requires a <= b
    ensures UsToCrsf(a) <= UsToCrsf(b)
  {
  }

  /** The usual stick range 988..2012 us stays inside the 172..1811 calibrated raw range. */
  lemma UsToCrsfRange(us: int)
    requires 988 <= us <= 2012
    ensures CHANNEL_VALUE_MIN <= UsToCrsf(us) <= CHANNEL_VALUE_MAX
    ensures 0 <= UsToCrsf(us) < 2048
  {
    UsToCrsfMonotone(988, us);
    UsToCrsfMonotone(us, 2012);
  }

  /** A raw value survives decode-then-encode up to a loss of at most 2 counts. */
  lemma {:induction false} RoundTripLoss(r: nat)
    ensures r - 2 <= UsToCrsf(CrsfToUs(r)) <= r
    ensures r % 8 == 0 ==> UsToCrsf(CrsfToUs(r)) == r
    ensures UsToCrsf(1500) == CHANNEL_VALUE_MID
  {
    var q := r * 5 / 8;
    var e := r * 5 % 8;
    assert r * 5 == 8 * q + e;
    var t := (q + 880) * 8;
    assert t == 5 * r - e + 7040;
    assert UsToCrsf(CrsfToUs(r)) == t / 5 - 1408;
    if e == 0 {
      DivAddMultiple(0, r + 1408, 5);
      assert t / 5 == r + 1408;
    } else if e <= 5 {
      DivModUnique(t, 5, r + 1407, 5 - e);
    } else {
      DivModUnique(t, 5, r + 1406, 10 - e);
    }
    if r % 8 == 0 {
      var k := r / 8;
      assert r * 5 == 8 * (5 * k);
      DivModUnique(r * 5, 8, 5 * k, 0);
    }
  }

  /** Round trips are not idempotent: raw 172 drifts to 171 and then to 169. */
  lemma RoundTripDrifts()
    ensures CrsfToUs(172) == 987 && UsToCrsf(987) == 171
    ensures CrsfToUs(171) == 986 && UsToCrsf(986) == 169
    ensures CrsfToUs(1) == 880 && UsToCrsf(880) == 0
  {
  }

  /** Arduino map(): (x - inMin) * (outMax - outMin) / (inMax - inMin) + outMin in C long arithmetic. */
  function ArduinoMap(x: int, inMin: int, inMax: int, outMin: int, outMax: int): int
    requires inMin < inMax
  {
    CDiv((x - inMin) * (outMax - outMin), inMax - inMin) + outMin
  }

  /** ArduinoCRSF's channel scaling: raw 191..1792 onto 1000..2000 us. */
  function ArduinoChannelUs(raw: nat): (us: int)
    ensures raw == CHANNEL_VALUE_1000 ==> us == 1000
    ensures raw == CHANNEL_VALUE_MID ==> us == 1500
    ensures raw == CHANNEL_VALUE_2000 ==> us == 2000
  {
    ArduinoMap(raw, CHANNEL_VALUE_1000, CHANNEL_VALUE_2000, 1000, 2000)
  }

  lemma ArduinoChannelUsRange(raw: nat)
    requires raw < 2048
    ensures 881 <= ArduinoChannelUs(raw) <= 2159
  {
  }

  // ---- payload records ----

  /** crsfLinkStatistics_t: ten single-byte fields, SNRs are int8_t. */
  datatype LinkStatistics = LinkStatistics(
    uplinkRssi1: Byte, uplinkRssi2: Byte, uplinkLinkQuality: Byte, uplinkSnr: int,
    activeAntenna: Byte, rfMode: Byte, uplinkTxPower: Byte,
    downlinkRssi: Byte, downlinkLinkQuality: Byte, downlinkSnr: int)

  /** crsf_sensor_gps_t: lat/lon int32, groundspeed/heading/altitude uint16, satellites uint8. */
  datatype GpsSensor = GpsSensor(
    latitude: int, longitude: int, groundspeed: U16, heading: U16, altitude: U16, satellites: Byte)

  /** crsf_sensor_baro_altitude_t / crsf_sensor_baro_vario_t: uint16 altitude, int16 vertical speed. */
  datatype BaroAltitude = BaroAltitude(altitude: U16, verticalspd: int)

  /** crsf_sensor_vario_t: a single int16 vertical speed. */
  datatype VarioSensor = VarioSensor(verticalspd: int)

  /** crsf_sensor_attitude_t of the top-level header: three uint16 fields. */
  datatype AttitudeSensor = AttitudeSensor(pitch: U16, roll: U16, yaw: U16)

  const ZERO_LINK_STATISTICS := LinkStatistics(0, 0, 0, 0, 0, 0, 0, 0, 0, 0)
  const ZERO_GPS := GpsSensor(0, 0, 0, 0, 0, 0)
  const ZERO_BARO := BaroAltitude(0, 0)
  const ZERO_VARIO := VarioSensor(0)
  const ZERO_ATTITUDE := AttitudeSensor(0, 0, 0)

  predicate IsI8(x: int) { -128 <= x < 128 }
  predicate IsI16(x: int) { -0x8000 <= x < 0x8000 }
  predicate IsI32(x: int) { -0x8000_0000 <= x < 0x8000_0000 }

  /** A network-order 16-bit field read as the source does: native load, then be16toh. */
  function ReadBe16(p: seq<Byte>, off: nat): (r: U16)
    requires off + 2 <= |p|
    ensures r == BeValue(p[off..off + 2])
  {
    Be16LoadIsBeValue(p[off..off + 2]);
    Be16toh(LoadU16(p[off..off + 2]))
  }

  /** A network-order 32-bit field read as the source does: native load, then be32toh. */
  function ReadBe32(p: seq<Byte>, off: nat): (r: U32)
    requires off + 4 <= |p|
    ensures r == BeValue(p[off..off + 4])
  {
    Be32LoadIsBeValue(p[off..off + 4]);
    Be32toh(LoadU32(p[off..off + 4]))
  }

  /** The int8_t that has bit pattern x. */
  function I8(x: nat): (r: int)
    requires x < Pow2(8)
    ensures IsI8(r)
  {
    Pow2Values();
    ToSigned(x, 8)
  }

  /** The int16_t that has bit pattern x. */
  function I16(x: nat): (r: int)
    requires x < Pow2(16)
    ensures IsI16(r)
  {
    Pow2Values();
    ToSigned(x, 16)
  }

  /** The int32_t that has bit pattern x. */
  function I32(x: nat): (r: int)
    requires x < Pow2(32)
    ensures IsI32(r)
  {
    Pow2Values();
    ToSigned(x, 32)
  }

  /** The memcpy of the first ten payload bytes into crsfLinkStatistics_t. */
  function DecodeLinkStatistics(p: seq<Byte>): (r: LinkStatistics)
    requires |p| >= LINK_STATISTICS_PAYLOAD_SIZE
  {
    LinkStatistics(p[0], p[1], p[2], I8(p[3]), p[4], p[5], p[6], p[7], p[8], I8(p[9]))
  }

  /** packetGps: every field big-endian at offsets 0, 4, 8, 10, 12, 14. */
  function DecodeGps(p: seq<Byte>): (r: GpsSensor)
    requires |p| >= GPS_PAYLOAD_SIZE
    ensures r.latitude == I32(BeValue(p[0..4])) && r.longitude == I32(BeValue(p[4..8]))
    ensures r.groundspeed == BeValue(p[8..10]) && r.heading == BeValue(p[10..12])
    ensures r.altitude == BeValue(p[12..14]) && r.satellites == p[14]
  {
    GpsSensor(I32(ReadBe32(p, 0)), I32(ReadBe32(p, 4)),
              ReadBe16(p, 8), ReadBe16(p, 10), ReadBe16(p, 12), p[14])
  }

  /** packetBaroAltitude: uint16 altitude at offset 0, int16 vertical speed at offset 2. */
  function DecodeBaroAltitude(p: seq<Byte>): (r: BaroAltitude)
    requires |p| >= 4
    ensures r.altitude == BeValue(p[0..2]) && r.verticalspd == I16(BeValue(p[2..4]))
  {
    BaroAltitude(ReadBe16(p, 0), I16(ReadBe16(p, 2)))
  }

  /** packetVario: int16 vertical speed at offset 0. */
  function DecodeVario(p: seq<Byte>): (r: VarioSensor)
    requires |p| >= 2
    ensures r.verticalspd == I16(BeValue(p[0..2]))
  {
    VarioSensor(I16(ReadBe16(p, 0)))
  }

  /** packetAttitude (ArduinoCRSF): three uint16 fields at offsets 0, 2, 4. */
  function DecodeAttitude(p: seq<Byte>): (r: AttitudeSensor)
    requires |p| >= ATTITUDE_PAYLOAD_SIZE
    ensures r.pitch == BeValue(p[0..2]) && r.roll == BeValue(p[2..4]) && r.yaw == BeValue(p[4..6])
  {
    AttitudeSensor(ReadBe16(p, 0), ReadBe16(p, 2), ReadBe16(p, 4))
  }

  // ---- the same layouts written out (a sender's view), and their round trips ----

  /** The two's-complement bit pattern of a signed field of the given width. */
  function Unsigned(x: int, bits: nat): nat
    requires bits > 0
  {
    x % Pow2(bits)
  }

  function EncodeLinkStatistics(s: LinkStatistics): (p: seq<Byte>)
    requires IsI8(s.uplinkSnr) && IsI8(s.downlinkSnr)
    ensures |p| == LINK_STATISTICS_PAYLOAD_SIZE
  {
    [s.uplinkRssi1, s.uplinkRssi2, s.uplinkLinkQuality, s.uplinkSnr % 256,
     s.activeAntenna, s.rfMode, s.uplinkTxPower,
     s.downlinkRssi, s.downlinkLinkQuality, s.downlinkSnr % 256]
  }

  function EncodeGps(g: GpsSensor): (p: seq<Byte>)
    requires IsI32(g.latitude) && IsI32(g.longitude)
    ensures |p| == GPS_PAYLOAD_SIZE
  {
    BeBytes(g.latitude % 0x1_0000_0000, 4) + BeBytes(g.longitude % 0x1_0000_0000, 4)
    + BeBytes(g.groundspeed, 2) + BeBytes(g.heading, 2) + BeBytes(g.altitude, 2) + [g.satellites]
  }

  lemma SignedRoundTrip(x: int, bits: nat)
    requires bits > 0 && -(Pow2(bits - 1) as int) <= x < Pow2(bits - 1)
    ensures ToSigned(x % Pow2(bits), bits) == x
  {
    assert Pow2(bits) == 2 * Pow2(bits - 1);
    if x < 0 {
      DivModUnique(x, Pow2(bits), -1, x + Pow2(bits));
    } else {
      DivModUnique(x, Pow2(bits), 0, x);
    }
  }

  lemma LinkStatisticsRoundTrip(s: LinkStatistics)
    requires IsI8(s.uplinkSnr) && IsI8(s.downlinkSnr)
    ensures DecodeLinkStatistics(EncodeLinkStatistics(s)) == s
  {
    Pow2Values();
    SignedRoundTrip(s.uplinkSnr, 8);
    SignedRoundTrip(s.downlinkSnr, 8);
  }

  lemma GpsRoundTrip(g: GpsSensor)
    requires IsI32(g.latitude) && IsI32(g.longitude)
    ensures DecodeGps(EncodeGps(g)) == g
  {
    var p := EncodeGps(g);
    Pow2Values();
    assert p[0..4] == BeBytes(g.latitude % 0x1_0000_0000, 4);
    assert p[4..8] == BeBytes(g.longitude % 0x1_0000_0000, 4);
    assert p[8..10] == BeBytes(g.groundspeed, 2);
    assert p[10..12] == BeBytes(g.heading, 2);
    assert p[12..14] == BeBytes(g.altitude, 2);
    BeValueOfBeBytes(g.latitude % 0x1_0000_0000, 4);
    BeValueOfBeBytes(g.longitude % 0x1_0000_0000, 4);
    BeValueOfBeBytes(g.groundspeed, 2);
    BeValueOfBeBytes(g.heading, 2);
    BeValueOfBeBytes(g.altitude, 2);
    DivModUnique(g.groundspeed, Pow2(16), 0, g.groundspeed);
    DivModUnique(g.heading, Pow2(16), 0, g.heading);
    DivModUnique(g.altitude, Pow2(16), 0, g.altitude);
    DivModUnique(g.latitude % 0x1_0000_0000, Pow2(32), 0, g.latitude % 0x1_0000_0000);
    DivModUnique(g.longitude % 0x1_0000_0000, Pow2(32), 0, g.longitude % 0x1_0000_0000);
    SignedRoundTrip(g.latitude, 32);
    SignedRoundTrip(g.longitude, 32);
  }

  // ---- telemetry fields as the senders fill them ----

  /** A 16-bit field of a sensor payload: the low 16 bits of x, most significant byte first. */
  function Field16(x: int): (r: seq<Byte>)
    ensures |r| == 2 && r[0] as int * 256 + r[1] as int == ToU16(x)
  {
    var u := ToU16(x);
    DivBelow(u, 256, 256);
    [u / 256, u % 256]
  }

  /** The same two bytes as the general big-endian encoding of the low 16 bits. */
  lemma Field16IsBeBytes(x: int)
    ensures Field16(x) == BeBytes(ToU16(x), 2)
  {
    var u := ToU16(x);
    BeBytesDigits(u);
    DivBelow(u, 256, 256);
  }

  /** Field16 is what a little-endian CPU stores for a field assigned htobe16(x). */
  lemma Field16IsHtobe16(x: int)
    ensures Field16(x) == LeBytes(Htobe16(ToU16(x)), 2)
  {
    Htobe16Image(ToU16(x));
    Field16IsBeBytes(x);
  }

  /** A 24-bit field of a sensor payload: the low 24 bits of v, most significant byte first. */
  function Field24(v: int): (r: seq<Byte>)
    ensures |r| == 3 && r[0] as int * 0x1_0000 + r[1] as int * 256 + r[2] as int == ToU32(v) % 0x100_0000
  {
    var u := ToU32(v) % 0x100_0000;
    DivBelow(u, 0x1_0000, 256);
    DivDiv(u, 256, 256);
    [u / 0x1_0000, (u / 256) % 256, u % 256]
  }

  /** The same three bytes as the general big-endian encoding of the low 24 bits. */
  lemma Field24IsBeBytes(v: int)
    ensures Field24(v) == BeBytes(ToU32(v) % 0x100_0000, 3)
  {
    var u := ToU32(v) % 0x100_0000;
    BeBytesDigits(u);
    DivDiv(u, 256, 256);
    DivBelow(u, 0x1_0000, 256);
  }

  /** Field24 is what a little-endian CPU stores for a 24-bit bit-field assigned htobe24(v). */
  lemma Field24IsHtobe24(v: int)
    ensures Field24(v) == LeBytes(Htobe24(v), 3)
  {
    Htobe24Image(v);
    Pow2Values();
    Field24IsBeBytes(v);
  }

  /** crsf_sensor_battery_t: voltage and current (16 bits), capacity (24 bits), remaining (8 bits). */
  function EncodeBattery(voltage: int, current: int, capacity: int, remaining: Byte): (p: seq<Byte>)
    ensures |p| == BATTERY_SENSOR_PAYLOAD_SIZE && p[7] == remaining
    ensures p[0] as int * 256 + p[1] as int == ToU16(voltage) && p[2] as int * 256 + p[3] as int == ToU16(current)
    ensures p[4] as int * 0x1_0000 + p[5] as int * 256 + p[6] as int == ToU32(capacity) % 0x100_0000
  {
    Field16(voltage) + Field16(current) + Field24(capacity) + [remaining]
  }

  /** A 16-bit field of a sensor payload, as its two wire bytes. */
  lemma Field16Image(x: int)
    requires 0 <= x < 0x1_0000
    ensures Field16(x) == [x / 256, x % 256]
  {
  }

  /** A 24-bit field of a sensor payload, as its three wire bytes. */
  lemma Field24Image(x: int)
    requires 0 <= x < 0x100_0000
    ensures Field24(x) == [x / 0x1_0000, (x / 256) % 256, x % 256]
  {
    assert ToU32(x) % 0x100_0000 == x;
  }

  /** A battery payload of in-range fields, byte by byte. */
  lemma EncodeBatteryImage(voltage: int, current: int, capacity: int, remaining: Byte)
    requires 0 <= voltage < 0x1_0000 && 0 <= current < 0x1_0000 && 0 <= capacity < 0x100_0000
    ensures EncodeBattery(voltage, current, capacity, remaining)
            == [voltage / 256, voltage % 256, current / 256, current % 256,
                capacity / 0x1_0000, (capacity / 256) % 256, capacity % 256, remaining]
  {
    Field16Image(voltage);
    Field16Image(current);
    Field24Image(capacity);
  }

  /**
   * The declared payload sizes are exactly what the decoders read: two
   * payloads that agree on their first GPS_PAYLOAD_SIZE (15),
   * LINK_STATISTICS_PAYLOAD_SIZE (10) or ATTITUDE_PAYLOAD_SIZE (6) bytes
   * decode alike, and the encoders write that many bytes.
   */
  lemma PayloadSizes(p: seq<Byte>, q: seq<Byte>)
    ensures |p| >= GPS_PAYLOAD_SIZE && |q| >= GPS_PAYLOAD_SIZE && p[..GPS_PAYLOAD_SIZE] == q[..GPS_PAYLOAD_SIZE]
            ==> DecodeGps(p) == DecodeGps(q)
    ensures |p| >= LINK_STATISTICS_PAYLOAD_SIZE && |q| >= LINK_STATISTICS_PAYLOAD_SIZE
            && p[..LINK_STATISTICS_PAYLOAD_SIZE] == q[..LINK_STATISTICS_PAYLOAD_SIZE]
            ==> DecodeLinkStatistics(p) == DecodeLinkStatistics(q)
    ensures |p| >= ATTITUDE_PAYLOAD_SIZE && |q| >= ATTITUDE_PAYLOAD_SIZE
            && p[..ATTITUDE_PAYLOAD_SIZE] == q[..ATTITUDE_PAYLOAD_SIZE]
            ==> DecodeAttitude(p) == DecodeAttitude(q)
  {
    if |p| >= GPS_PAYLOAD_SIZE && |q| >= GPS_PAYLOAD_SIZE && p[..GPS_PAYLOAD_SIZE] == q[..GPS_PAYLOAD_SIZE] {
      forall i | 0 <= i < GPS_PAYLOAD_SIZE
        ensures p[i] == q[i]
      {
        assert p[i] == p[..GPS_PAYLOAD_SIZE][i];
      }
      assert p[0..4] == q[0..4] && p[4..8] == q[4..8] && p[8..10] == q[8..10];
      assert p[10..12] == q[10..12] && p[12..14] == q[12..14];
    }
    if |p| >= ATTITUDE_PAYLOAD_SIZE && |q| >= ATTITUDE_PAYLOAD_SIZE
       && p[..ATTITUDE_PAYLOAD_SIZE] == q[..ATTITUDE_PAYLOAD_SIZE] {
      forall i | 0 <= i < ATTITUDE_PAYLOAD_SIZE
        ensures p[i] == q[i]
      {
        assert p[i] == p[..ATTITUDE_PAYLOAD_SIZE][i];
      }
      assert p[0..2] == q[0..2] && p[2..4] == q[2..4] && p[4..6] == q[4..6];
    }
  }
}
