/**
 * The UDP telemetry frame of a DALI-2 control gear and the record stored for
 * it: frames shorter than 140 bytes or not starting with the ASCII header
 * "DALI-2" are dropped; the fields are read at fixed offsets, six of them are
 * rescaled, and the record is stored against the gear registered for the
 * frame's (server, channel, unit) triple, or dropped when there is none.
 */
module Frame {
  import opened Wrappers
  import opened Decimal
  import opened MagicValue

  const MIN_SIZE: nat := 140

  /** "DALI-2" in ASCII. */
  const HEADER: seq<Byte> := [0x44, 0x41, 0x4C, 0x49, 0x2D, 0x32]

  /**
   * The measurement columns of a stored energy record, all but `device_arc`,
   * which is held beside them because the grouping code overwrites it.
   */
  datatype Reading = Reading(
    deviceStatus: nat,
    activeEnergy: real,
    activePower: real,
    apparentEnergy: real,
    apparentPower: real,
    loadsideEnergy: real,
    loadsidePower: real,
    controlGearOnTime: real,
    controlGearStartCount: real,
    controlGearVoltage: real,
    controlGearVoltageFrequence: real,
    controlGearPowerFactor: real,
    controlGearFailure: real,
    controlGearFailureCount: real,
    controlGearUnderVoltage: real,
    controlGearUnderVoltageCount: real,
    controlGearOverVoltage: real,
    controlGearOverVoltageCount: real,
    controlGearOutputPowerLimit: real,
    controlGearOutputPowerLimitCount: real,
    controlGearThermalDeration: real,
    controlGearThermalDerationCount: real,
    controlGearThermalShutdown: real,
    controlGearThermalShutdownCount: real,
    controlGearTemperature: real,
    controlGearOutputCurrentPercent: real,
    lightSourceStartCountResettable: real,
    lightSourceStartCount: real,
    lightSourceOnTimeResettable: real,
    lightSourceOnTime: real,
    lightSourceVoltage: real,
    lightSourceCurrent: real,
    lightSourceFailure: real,
    /** The `light_source_faiture_count` column. */
    lightSourceFailureCount: real,
    lightSourceShort: real,
    lightSourceShortCount: real,
    lightSourceOpen: real,
    lightSourceOpenCount: real,
    lightSourceThermalDerating: real,
    lightSourceThermalDeratingCount: real,
    lightSourceThermalShutdown: real,
    lightSourceThermalShutdownCount: real,
    lightSourceTemperature: real)

  /** A decoded frame: who sent it, and what it measured. */
  datatype Telemetry = Telemetry(
    serial: string,
    macAddress: nat,
    channel: nat,
    unitId: nat,
    deviceArc: real,
    reading: Reading)

  /**
   * A stored energy record: the gear it belongs to, when it was stored, its arc
   * level and the other measurements. The store keeps nothing else from a frame.
   */
  datatype Row = Row(gearId: nat, createdAt: int, deviceArc: real, reading: Reading)

  /** The lookup key of a registered gear. */
  datatype GearKey = GearKey(serverId: nat, channel: nat, unitId: nat)

  /** Why a frame produced no record. */
  datatype Drop = TooShort | BadHeader | UnknownGear

  // ---------------------------------------------------------------------------
  // Field readers

  const HEX_DIGITS: string := "0123456789abcdef"

  /** `buf.hexSlice`: two lower-case hexadecimal digits per byte. */
  function Hex(bytes: seq<Byte>): (s: string)
    ensures |s| == 2 * |bytes|
    ensures forall i :: 0 <= i < |s| ==> s[i] in HEX_DIGITS
  {
    if bytes == [] then []
    else
      var b := bytes[0];
      [HEX_DIGITS[b / 16], HEX_DIGITS[b % 16]] + Hex(bytes[1..])
  }

  function HexValue(c: char): (v: nat)
    ensures v < 16
  {
    if '0' <= c <= '9' then c as int - '0' as int
    else if 'a' <= c <= 'f' then c as int - 'a' as int + 10
    else 0
  }

  /** Reads a hexadecimal string back into bytes, two digits at a time. */
  function Unhex(s: string): seq<Byte> {
    if |s| < 2 then []
    else [HexValue(s[0]) * 16 + HexValue(s[1])] + Unhex(s[2..])
  }

  lemma HexDigitValue(n: nat)
    requires n < 16
    ensures HexValue(HEX_DIGITS[n]) == n
  {
  }

  /** The serial text loses nothing: reading it back gives the original bytes. */
  lemma {:induction false} HexRoundTrip(bytes: seq<Byte>)
    ensures Unhex(Hex(bytes)) == bytes
    decreases |bytes|
  {
    if bytes != [] {
      UnhexPair(bytes[0], Hex(bytes[1..]));
      HexRoundTrip(bytes[1..]);
      assert bytes == [bytes[0]] + bytes[1..];
    }
  }

  /** The two digits of one byte read back as that byte. */
  lemma UnhexPair(b: Byte, rest: string)
    ensures Unhex([HEX_DIGITS[b / 16], HEX_DIGITS[b % 16]] + rest) == [b] + Unhex(rest)
  {
    var h := [HEX_DIGITS[b / 16], HEX_DIGITS[b % 16]] + rest;
    HexDigitValue(b / 16);
    HexDigitValue(b % 16);
    assert h[2..] == rest;
    assert HexValue(h[0]) * 16 + HexValue(h[1]) == b;
  }

  /** `readUInt32BE(i)`. */
  function UInt32(f: seq<Byte>, i: nat): (v: nat)
    requires i + 4 <= |f|
    ensures v < TWO32
  {
    assert Pow256(4) == TWO32;
    BigEndian(f[i..i + 4])
  }

  /** A scaled-decimal field of a full-size frame; every such field is narrower than eight bytes, so it is a number. */
  function ScaledField(f: seq<Byte>, start: nat, stop: nat): real
    requires start < stop <= start + 7 && stop < |f|
  {
    NarrowFieldIsNumber(f, start, stop);
    FloatFromScale(f, start, stop).value.val
  }

  /** An integer field of at most four bytes of a full-size frame. */
  function IntField(f: seq<Byte>, start: nat, stop: nat): int
    requires start <= stop <= start + 3 && stop < |f|
  {
    IntAnyLength(f, start, stop).value
  }

  /** The fields at their offsets, before any rescaling. */
  function DecodeFrame(f: seq<Byte>): Telemetry
    requires |f| >= MIN_SIZE
  {
    Telemetry(
      serial := Hex(f[6..14]),
      macAddress := BigEndian(f[14..22]),
      channel := f[22],
      unitId := f[23],
      deviceArc := f[27] as real,
      reading := Reading(
        deviceStatus := f[26],
        activeEnergy := ScaledField(f, 41, 47),
        activePower := ScaledField(f, 48, 52),
        apparentEnergy := ScaledField(f, 54, 60),
        apparentPower := ScaledField(f, 61, 65),
        loadsideEnergy := ScaledField(f, 67, 73),
        loadsidePower := ScaledField(f, 74, 78),
        controlGearOnTime := UInt32(f, 80) as real,
        controlGearStartCount := (UInt32(f, 83) % 0x100_0000) as real,
        controlGearVoltage := IntField(f, 87, 88) as real,
        controlGearVoltageFrequence := f[89] as real,
        controlGearPowerFactor := f[90] as real,
        controlGearFailure := f[91] as real,
        controlGearFailureCount := f[92] as real,
        controlGearUnderVoltage := f[93] as real,
        controlGearUnderVoltageCount := f[94] as real,
        controlGearOverVoltage := f[95] as real,
        controlGearOverVoltageCount := f[96] as real,
        controlGearOutputPowerLimit := f[97] as real,
        controlGearOutputPowerLimitCount := f[98] as real,
        controlGearThermalDeration := f[99] as real,
        controlGearThermalDerationCount := f[100] as real,
        controlGearThermalShutdown := f[101] as real,
        controlGearThermalShutdownCount := f[102] as real,
        controlGearTemperature := f[103] as real,
        controlGearOutputCurrentPercent := f[104] as real,
        lightSourceStartCountResettable := IntField(f, 106, 108) as real,
        lightSourceStartCount := IntField(f, 109, 111) as real,
        lightSourceOnTimeResettable := UInt32(f, 112) as real,
        lightSourceOnTime := UInt32(f, 116) as real,
        lightSourceVoltage := IntField(f, 120, 121) as real,
        lightSourceCurrent := IntField(f, 122, 123) as real,
        lightSourceFailure := f[124] as real,
        lightSourceFailureCount := f[125] as real,
        lightSourceShort := f[126] as real,
        lightSourceShortCount := f[127] as real,
        lightSourceOpen := f[128] as real,
        lightSourceOpenCount := f[129] as real,
        lightSourceThermalDerating := f[130] as real,
        lightSourceThermalDeratingCount := f[131] as real,
        lightSourceThermalShutdown := f[132] as real,
        lightSourceThermalShutdownCount := f[133] as real,
        lightSourceTemperature := f[134] as real))
  }

  /** Voltages in tenths of a volt, current in milliamperes, temperatures offset by 60, power factor in hundredths. */
  function Corrected(r: Reading): Reading {
    r.(controlGearVoltage := r.controlGearVoltage / 10.0,
       lightSourceVoltage := r.lightSourceVoltage / 10.0,
       lightSourceCurrent := r.lightSourceCurrent / 1000.0,
       controlGearTemperature := r.controlGearTemperature - 60.0,
       lightSourceTemperature := r.lightSourceTemperature - 60.0,
       controlGearPowerFactor := r.controlGearPowerFactor / 100.0)
  }

  /** The registered gear a frame is stored against: its MAC address as server id, its channel and unit. */
  function KeyOf(t: Telemetry): GearKey {
    GearKey(t.macAddress, t.channel, t.unitId)
  }

  /**
   * One received frame: dropped when short, mis-headed or from an unregistered
   * gear; otherwise the corrected reading stored against the gear's id.
   */
  function Ingest(f: seq<Byte>, gears: map<GearKey, nat>, createdAt: int): (r: Result<Row, Drop>)
    ensures r == Err(TooShort) <==> |f| < MIN_SIZE
    ensures r == Err(BadHeader) <==> |f| >= MIN_SIZE && f[..6] != HEADER
    ensures r == Err(UnknownGear) <==> |f| >= MIN_SIZE && f[..6] == HEADER && KeyOf(DecodeFrame(f)) !in gears
    ensures r.Ok? ==>
      (|f| >= MIN_SIZE && KeyOf(DecodeFrame(f)) in gears
       && r.value == Row(gears[KeyOf(DecodeFrame(f))], createdAt, DecodeFrame(f).deviceArc,
                         Corrected(DecodeFrame(f).reading)))
  {
    if |f| < MIN_SIZE then Err(TooShort)
    else if f[..6] != HEADER then Err(BadHeader)
    else
      var t := DecodeFrame(f);
      if KeyOf(t) !in gears then Err(UnknownGear)
      else Ok(Row(gears[KeyOf(t)], createdAt, t.deviceArc, Corrected(t.reading)))
  }

  /** The header bytes spell "DALI-2". */
  lemma HeaderText()
    ensures |HEADER| == 6
    ensures forall i :: 0 <= i < 6 ==> HEADER[i] == "DALI-2"[i] as int
  {
  }

  /** Masking the 32-bit word at 83 with 0xffffff keeps exactly the three bytes 84..86. */
  lemma StartCountBytes(f: seq<Byte>)
    requires |f| >= MIN_SIZE
    ensures UInt32(f, 83) % 0x100_0000 == BigEndian(f[84..87])
  {
    BigEndianFirst(f[83..87]);
    assert f[83..87][1..] == f[84..87];
    assert BigEndian(f[84..87]) < Pow256(3);
  }

  /**
   * What a stored record holds, field by field, in terms of the frame bytes:
   * the rescaled voltages, current, temperatures and power factor, the 24-bit
   * start count and the unsigned multi-byte integers.
   */
  lemma StoredFields(f: seq<Byte>, gears: map<GearKey, nat>, createdAt: int)
    requires Ingest(f, gears, createdAt).Ok?
    ensures var r := Ingest(f, gears, createdAt).value.reading;
      && r.controlGearVoltage == BigEndian(f[87..89]) as real / 10.0
      && r.lightSourceVoltage == BigEndian(f[120..122]) as real / 10.0
      && r.lightSourceCurrent == BigEndian(f[122..124]) as real / 1000.0
      && r.controlGearTemperature == f[103] as real - 60.0
      && r.lightSourceTemperature == f[134] as real - 60.0
      && r.controlGearPowerFactor == f[90] as real / 100.0
      && r.controlGearStartCount == BigEndian(f[84..87]) as real
      && r.lightSourceStartCount == BigEndian(f[109..112]) as real
      && r.lightSourceStartCountResettable == BigEndian(f[106..109]) as real
      && r.lightSourceOnTime == BigEndian(f[116..120]) as real
      && r.lightSourceFailureCount == f[125] as real
    ensures Ingest(f, gears, createdAt).value.deviceArc == f[27] as real
  {
    StartCountBytes(f);
  }

  /** The ranges the rescaled fields can take. */
  lemma StoredRanges(f: seq<Byte>, gears: map<GearKey, nat>, createdAt: int)
    requires Ingest(f, gears, createdAt).Ok?
    ensures var r := Ingest(f, gears, createdAt).value.reading;
      && 0.0 <= r.controlGearVoltage <= 6553.5
      && 0.0 <= r.lightSourceCurrent <= 65.535
      && -60.0 <= r.controlGearTemperature <= 195.0
      && 0.0 <= r.controlGearPowerFactor <= 2.55
      && 0.0 <= r.controlGearStartCount < 16777216.0
  {
    StoredFields(f, gears, createdAt);
    assert BigEndian(f[87..89]) < Pow256(2);
    assert BigEndian(f[122..124]) < Pow256(2);
    assert BigEndian(f[84..87]) < Pow256(3);
  }

  /** A frame from the sample test data of the decoder is far too short to be stored. */
  lemma ShortFrameDropped(gears: map<GearKey, nat>, createdAt: int)
    ensures Ingest([0, 1, 0, 2, 5, 3, 0, 4], gears, createdAt) == Err(TooShort)
  {
  }
}
