/**
 * Decoding of b-parasite advertisements and derivation of the device key
 * (ble.go: decodeSign, getKey, parseParasiteData).
 */
module Ble {
  import opened Wrappers
  import opened Ascii
  import opened Data

  type Byte = b: int | 0 <= b < 256

  /** The 16-bit UUID of the Environmental Sensing service (Bluetooth SIG Assigned Numbers). */
  const EnvironmentalSensing: bv16 := 0x181A
  /** The decoder reads the service data up to index 12. */
  const MinPayloadLength := 13
  /** macOS reports a 36-character UUID instead of the hardware address. */
  const UuidAddressLength := 36
  /** The MAC address the firmware embeds sits at bytes 10..15. */
  const MacPayloadLength := 16

  /** A service UUID: one derived from a 16-bit short UUID, or any other 128-bit UUID. */
  datatype Uuid = Short(id: bv16) | Long(bytes: seq<Byte>)

  /** One service-data AD structure: its UUID and its payload. */
  datatype ServiceData = ServiceData(uuid: Uuid, data: seq<Byte>)

  /** What the platform hands the scan callback. */
  datatype ScanResult = ScanResult(address: string, rssi: int, serviceData: seq<ServiceData>)

  /** The configuration fields the scanner reads. */
  datatype BleConfig = BleConfig(vendorPrefix: string, inferMacAddress: bool)

  datatype ParseError =
    | UnexpectedServiceDataCount(count: nat)
    | InvalidServiceDataUuid(uuid: Uuid)
    | PayloadTooShort(length: nat)

  /** `uuid.Is16Bit() && uuid.Get16Bit() == 0x181a`. */
  predicate IsEnvironmentalSensing(u: Uuid) {
    u.Short? && u.id == EnvironmentalSensing
  }

  // ---------------------------------------------------------------------
  // Integer fields

  /** binary.BigEndian.Uint16 of two bytes. */
  function BigEndian16(hi: Byte, lo: Byte): (u: int)
    ensures 0 <= u < 65536
    ensures u / 256 == hi && u % 256 == lo
  {
    hi * 256 + lo
  }

  /** decodeSign: reads an unsigned 16-bit value as two's complement. */
  function DecodeSign(i: int): (r: int)
    requires 0 <= i < 65536
    ensures -32768 <= r < 32768
    ensures (r + 65536) % 65536 == i
  {
    if i < 32768 then i else i - 65536
  }

  /** The 16-bit two's-complement encoding that DecodeSign undoes. */
  function EncodeSign(t: int): (u: int)
    requires -32768 <= t < 32768
    ensures 0 <= u < 65536
    ensures u < 32768 <==> 0 <= t
  {
    (t + 65536) % 65536
  }

  lemma DecodeSignRoundTrip(t: int, u: int)
    requires -32768 <= t < 32768 && 0 <= u < 65536
    ensures DecodeSign(EncodeSign(t)) == t
    ensures EncodeSign(DecodeSign(u)) == u
  {
  }

  // ---------------------------------------------------------------------
  // MAC address text (the %02x:...:%02x format of getKey)

  /** One lower-case hexadecimal digit. */
  function HexDigit(n: int): (c: char)
    requires 0 <= n < 16
    ensures '0' <= c <= '9' || 'a' <= c <= 'f'
  {
    if n < 10 then ('0' as int + n) as char else ('a' as int + n - 10) as char
  }

  function ParseHexDigit(c: char): (r: Option<int>)
    ensures r.Some? ==> 0 <= r.value < 16
  {
    if '0' <= c <= '9' then Some(c as int - '0' as int)
    else if 'a' <= c <= 'f' then Some(c as int - 'a' as int + 10)
    else None
  }

  /** %02x of one byte. */
  function HexByte(b: Byte): (s: string)
    ensures |s| == 2
  {
    [HexDigit(b / 16), HexDigit(b % 16)]
  }

  function ParseHexByte(s: string): (r: Option<Byte>)
    requires |s| == 2
  {
    var hi :- ParseHexDigit(s[0]);
    var lo :- ParseHexDigit(s[1]);
    Some(hi * 16 + lo)
  }

  /** The six bytes of a MAC address as six colon-separated lower-case hex pairs. */
  function FormatMac(m: seq<Byte>): (s: string)
    requires |m| == 6
    ensures |s| == 17
  {
    HexByte(m[0]) + ":" + HexByte(m[1]) + ":" + HexByte(m[2]) + ":" +
    HexByte(m[3]) + ":" + HexByte(m[4]) + ":" + HexByte(m[5])
  }

  /** Reads back a MAC address written by FormatMac; anything else is rejected. */
  function ParseMac(s: string): (r: Option<seq<Byte>>)
    ensures r.Some? ==> |r.value| == 6
  {
    if |s| != 17 || s[2] != ':' || s[5] != ':' || s[8] != ':' || s[11] != ':' || s[14] != ':' then None
    else
      var b0 :- ParseHexByte(s[0..2]);
      var b1 :- ParseHexByte(s[3..5]);
      var b2 :- ParseHexByte(s[6..8]);
      var b3 :- ParseHexByte(s[9..11]);
      var b4 :- ParseHexByte(s[12..14]);
      var b5 :- ParseHexByte(s[15..17]);
      Some([b0, b1, b2, b3, b4, b5])
  }

  lemma HexByteRoundTrip(b: Byte)
    ensures ParseHexByte(HexByte(b)) == Some(b)
  {
  }

  lemma HexByteCanonical(s: string)
    requires |s| == 2 && ParseHexByte(s).Some?
    ensures HexByte(ParseHexByte(s).value) == s
  {
  }

  /** Formatting then parsing a MAC address gives back its six bytes. */
  lemma MacRoundTrip(m: seq<Byte>)
    requires |m| == 6
    ensures ParseMac(FormatMac(m)) == Some(m)
  {
    var s := FormatMac(m);
    assert s[2] == ':' && s[5] == ':' && s[8] == ':' && s[11] == ':' && s[14] == ':';
    assert s[0..2] == HexByte(m[0]) && s[3..5] == HexByte(m[1]) && s[6..8] == HexByte(m[2]);
    assert s[9..11] == HexByte(m[3]) && s[12..14] == HexByte(m[4]) && s[15..17] == HexByte(m[5]);
    HexByteRoundTrip(m[0]);
    HexByteRoundTrip(m[1]);
    HexByteRoundTrip(m[2]);
    HexByteRoundTrip(m[3]);
    HexByteRoundTrip(m[4]);
    HexByteRoundTrip(m[5]);
    assert ParseHexByte(s[0..2]) == Some(m[0]) && ParseHexByte(s[3..5]) == Some(m[1]);
    assert ParseHexByte(s[6..8]) == Some(m[2]) && ParseHexByte(s[9..11]) == Some(m[3]);
    assert ParseHexByte(s[12..14]) == Some(m[4]) && ParseHexByte(s[15..17]) == Some(m[5]);
    assert m == [m[0], m[1], m[2], m[3], m[4], m[5]];
  }

  /** Every string ParseMac accepts is the FormatMac text of what it returns. */
  lemma MacCanonical(s: string)
    requires ParseMac(s).Some?
    ensures FormatMac(ParseMac(s).value) == s
  {
    var m := ParseMac(s).value;
    HexByteCanonical(s[0..2]);
    HexByteCanonical(s[3..5]);
    HexByteCanonical(s[6..8]);
    HexByteCanonical(s[9..11]);
    HexByteCanonical(s[12..14]);
    HexByteCanonical(s[15..17]);
    assert s == s[0..2] + [s[2]] + s[3..5] + [s[5]] + s[6..8] + [s[8]] + s[9..11] + [s[11]] +
                s[12..14] + [s[14]] + s[15..17];
  }

  /** A formatted MAC address is lower case. */
  lemma FormatMacIsLower(m: seq<Byte>)
    requires |m| == 6
    ensures IsLower(FormatMac(m))
  {
  }

  // ---------------------------------------------------------------------
  // getKey

  /**
   * getKey: the lower-cased platform address, except when MAC inference is
   * on and the platform gave a 36-character UUID; then the MAC address the
   * firmware embeds at bytes 10..15 of the (first) service data, when the
   * payload is long enough to hold it.
   */
  function GetKey(cfg: BleConfig, sr: ScanResult): (k: string)
    requires cfg.inferMacAddress && |sr.address| == UuidAddressLength ==> |sr.serviceData| >= 1
    ensures IsLower(k)
    ensures !cfg.inferMacAddress || |sr.address| != UuidAddressLength ==> k == ToLower(sr.address)
    ensures cfg.inferMacAddress && |sr.address| == UuidAddressLength ==>
      var data := sr.serviceData[0].data;
      (|data| < MacPayloadLength ==> k == ToLower(sr.address)) &&
      (|data| >= MacPayloadLength ==> |k| == 17 && ParseMac(k) == Some(data[10..16]))
  {
    var addr := ToLower(sr.address);
    if !cfg.inferMacAddress then addr
    else if |addr| != UuidAddressLength then addr
    else
      var data := sr.serviceData[0].data;
      if |data| < MacPayloadLength then addr
      else
        FormatMacIsLower(data[10..16]);
        MacRoundTrip(data[10..16]);
        FormatMac(data[10..16])
  }

  /** Worked example: bytes 10..15 are printed in hexadecimal, two digits each. */
  lemma GetKeyExample()
    ensures GetKey(BleConfig("", true),
                   ScanResult("0C1E6B3E-1F1A-4C5B-9D2E-3A4B5C6D7E8F", -70,
                              [ServiceData(Short(0x181A), [0, 0, 0, 0, 0, 0, 0, 0, 0, 0,
                                                           0xF0, 0xCA, 0xF0, 0xCA, 0x0A, 0x1E])]))
            == "f0:ca:f0:ca:0a:1e"
  {
    assert HexByte(0xF0) == "f0" && HexByte(0xCA) == "ca";
    assert HexByte(0x0A) == "0a" && HexByte(0x1E) == "1e";
    assert FormatMac([0xF0, 0xCA, 0xF0, 0xCA, 0x0A, 0x1E]) == "f0:ca:f0:ca:0a:1e";
  }

  // ---------------------------------------------------------------------
  // parseParasiteData

  /** The fixed-offset decoding of parseParasiteData's struct literal, as the code indexes it. */
  function DecodeFields(key: string, data: seq<Byte>, rssi: int): (d: ParasiteData)
    requires |data| >= MinPayloadLength
    ensures d.key == key && d.rssi == rssi
    ensures 0 <= d.counter < 16 && d.counter == data[12] % 16
    ensures d.humidity == data[8] && d.batteryPercentage == data[9]
    ensures d.batteryMillivolts / 256 == data[10] && d.batteryMillivolts % 256 == data[11]
    ensures -32768 <= d.tempDeciCelsius < 32768
    ensures EncodeSign(d.tempDeciCelsius) / 256 == data[6] && EncodeSign(d.tempDeciCelsius) % 256 == data[7]
  {
    ParasiteData(
      key,
      data[12] % 16,   // Data[12] & 0x0f: the low four bits of a byte
      data[9],
      BigEndian16(data[10], data[11]),
      DecodeSign(BigEndian16(data[6], data[7])),
      data[8],
      rssi)
  }

  /** The field ranges a payload can carry. */
  predicate Encodable(d: ParasiteData) {
    && 0 <= d.counter < 16
    && 0 <= d.humidity < 256
    && 0 <= d.batteryPercentage < 256
    && 0 <= d.batteryMillivolts < 65536
    && -32768 <= d.tempDeciCelsius < 32768
  }

  /** A 13-byte payload carrying a reading at the offsets the decoder reads; the other bytes are zero. */
  function EncodePayload(d: ParasiteData): (data: seq<Byte>)
    requires Encodable(d)
    ensures |data| == MinPayloadLength
  {
    var t := EncodeSign(d.tempDeciCelsius);
    [0, 0, 0, 0, 0, 0,
     t / 256, t % 256,
     d.humidity, d.batteryPercentage,
     d.batteryMillivolts / 256, d.batteryMillivolts % 256,
     d.counter]
  }

  /** Decoding an encoded reading gives the reading back. */
  lemma DecodeEncode(d: ParasiteData)
    requires Encodable(d)
    ensures DecodeFields(d.key, EncodePayload(d), d.rssi) == d
  {
    var data := EncodePayload(d);
    var r := DecodeFields(d.key, data, d.rssi);
    DecodeSignRoundTrip(d.tempDeciCelsius, 0);
    assert r.tempDeciCelsius == d.tempDeciCelsius;
  }

  /** Re-encoding a decoded payload reproduces every byte the decoder reads (the counter's low nibble). */
  lemma EncodeDecode(key: string, data: seq<Byte>, rssi: int)
    requires |data| >= MinPayloadLength
    ensures Encodable(DecodeFields(key, data, rssi))
    ensures var e := EncodePayload(DecodeFields(key, data, rssi));
      e[6..12] == data[6..12] && e[12] == data[12] % 16
  {
  }

  /**
   * parseParasiteData. The two checks of the source, then a length check
   * that the source lacks: a payload shorter than 13 bytes makes the
   * source index out of range.
   */
  function ParseParasiteData(cfg: BleConfig, sr: ScanResult): (r: Result<ParasiteData, ParseError>)
    ensures |sr.serviceData| != 1 ==> r == Failure(UnexpectedServiceDataCount(|sr.serviceData|))
    ensures |sr.serviceData| == 1 && !IsEnvironmentalSensing(sr.serviceData[0].uuid) ==>
      r == Failure(InvalidServiceDataUuid(sr.serviceData[0].uuid))
    ensures |sr.serviceData| == 1 && IsEnvironmentalSensing(sr.serviceData[0].uuid) &&
            |sr.serviceData[0].data| < MinPayloadLength ==>
      r == Failure(PayloadTooShort(|sr.serviceData[0].data|))
    ensures r.Success? <==>
      |sr.serviceData| == 1 && IsEnvironmentalSensing(sr.serviceData[0].uuid) &&
      |sr.serviceData[0].data| >= MinPayloadLength
    ensures r.Success? ==>
      r.value == DecodeFields(GetKey(cfg, sr), sr.serviceData[0].data, sr.rssi)
  {
    if |sr.serviceData| != 1 then Failure(UnexpectedServiceDataCount(|sr.serviceData|))
    else
      var sd := sr.serviceData[0];
      if !IsEnvironmentalSensing(sd.uuid) then Failure(InvalidServiceDataUuid(sd.uuid))
      else if |sd.data| < MinPayloadLength then Failure(PayloadTooShort(|sd.data|))
      else Success(DecodeFields(GetKey(cfg, sr), sd.data, sr.rssi))
  }

  /** The checks parseParasiteData makes before decoding, as written: nothing about the payload's length. */
  function GuardsAsWritten(sr: ScanResult): (r: Outcome<ParseError>)
    ensures r.Pass? <==> |sr.serviceData| == 1 && IsEnvironmentalSensing(sr.serviceData[0].uuid)
  {
    if |sr.serviceData| != 1 then Fail(UnexpectedServiceDataCount(|sr.serviceData|))
    else if !IsEnvironmentalSensing(sr.serviceData[0].uuid) then Fail(InvalidServiceDataUuid(sr.serviceData[0].uuid))
    else Pass
  }

  /**
   * A 12-byte Environmental Sensing payload gets past the checks as written
   * yet is too short for the field decoding (byte 12 does not exist); the
   * corrected parser reports it.
   */
  lemma ShortPayloadPassesGuards(cfg: BleConfig)
    ensures var sr := ScanResult("AA:BB:CC:DD:EE:FF", -60,
                                 [ServiceData(Short(0x181A), [0, 0, 0, 0, 0, 0, 0, 0, 0, 0, 0, 0])]);
      && GuardsAsWritten(sr) == Pass
      && |sr.serviceData[0].data| < MinPayloadLength
      && ParseParasiteData(cfg, sr) == Failure(PayloadTooShort(12))
  {
  }

  /** Wherever the checks as written fail, the corrected parser fails with the same error. */
  lemma ParseKeepsGuards(cfg: BleConfig, sr: ScanResult)
    ensures GuardsAsWritten(sr).Fail? ==> ParseParasiteData(cfg, sr) == Failure(GuardsAsWritten(sr).error)
    ensures GuardsAsWritten(sr).Pass? && |sr.serviceData[0].data| >= MinPayloadLength ==>
      ParseParasiteData(cfg, sr).Success?
  {
  }

  /** Worked example: 21.5 degrees, 56 %, 87 %, 2.9 V, counter 7. */
  lemma ParseExample(sr: ScanResult)
    requires sr.rssi == -60 && sr.address == "aa:bb:cc:dd:ee:ff"
    requires sr.serviceData == [ServiceData(Short(0x181A), [0, 0, 0, 0, 0, 0, 0x00, 0xD7, 56, 87, 0x0B, 0x54, 0xF7])]
    ensures ParseParasiteData(BleConfig("", false), sr)
         == Success(ParasiteData("aa:bb:cc:dd:ee:ff", 7, 87, 2900, 215, 56, -60))
  {
    var data := sr.serviceData[0].data;
    assert data[6] == 0 && data[7] == 0xD7 && data[10] == 0x0B && data[11] == 0x54 && data[12] == 0xF7;
    ToLowerOfLower(sr.address);
  }
}
