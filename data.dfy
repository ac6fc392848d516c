/** The reading that flows from the scanner to every subscriber (data.go). */
module Data {

  /**
   * One decoded b-parasite advertisement. The measurements keep the raw
   * integers of the payload; the source's float64 fields are exact scalings
   * of them, given below as reals. The reception time is not modelled.
   */
  datatype ParasiteData = ParasiteData(
    key: string,               // device key (lower-case address or inferred MAC)
    counter: int,              // wrap-around broadcast counter, 0..15
    batteryPercentage: int,    // percent, one payload byte
    batteryMillivolts: int,    // big-endian unsigned 16-bit millivolts
    tempDeciCelsius: int,      // signed tenths of a degree Celsius
    humidity: int,             // percent, one payload byte
    rssi: int)                 // received signal strength, dBm
  {
    /** BatteryVoltage in volts: the millivolt reading divided by 1000. */
    function BatteryVoltage(): (v: real)
      ensures v * 1000.0 == batteryMillivolts as real
    {
      batteryMillivolts as real / 1000.0
    }

    /** TempCelcius in degrees: the tenths reading divided by 10. */
    function TempCelsius(): (t: real)
      ensures t * 10.0 == tempDeciCelsius as real
    {
      tempDeciCelsius as real / 10.0
    }
  }
}
