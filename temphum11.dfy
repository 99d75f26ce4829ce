/** Constants of the Temp Hum 11 sensor interface: the slave address, the
    register map, the configuration bits, the expected identifiers and the
    temperature-unit selectors, with the facts the driver relies on. */
module TempHum11 {

  /** An unsigned 8-bit quantity (`uint8_t`). */
  newtype byte = x: int | 0 <= x < 0x100

  /** An unsigned 16-bit register value (`uint16_t` used as a number). */
  type u16 = x: int | 0 <= x < 0x1_0000

  // Slave address (7-bit)
  const DEVICE_SLAVE_ADDR: byte := 0x40

  // Registers
  const REG_TEMPERATURE: byte := 0x00
  const REG_HUMIDITY: byte := 0x01
  const REG_CONFIGURATION: byte := 0x02
  const REG_SERIAL_ID_0: byte := 0xFB
  const REG_SERIAL_ID_1: byte := 0xFC
  const REG_SERIAL_ID_2: byte := 0xFD
  const REG_MANUFACTURER_ID: byte := 0xFE
  const REG_DEVICE_ID: byte := 0xFF

  // Configuration bits (a 16-bit word, combined with bitwise or)
  const NORMAL_OPERATION: bv16 := 0x0000
  const SOFTWARE_RESET: bv16 := 0x8000
  const HEATER_DISABLED: bv16 := 0x0000
  const HEATER_ENABLED: bv16 := 0x2000
  const TEMP_HUM_ACQUIRED: bv16 := 0x0000
  const TEMP_FIRST: bv16 := 0x1000
  const BAT_VOLT_BIGGER_THAN_2P8: bv16 := 0x0000
  const BAT_VOLT_SMALLER_THAN_2P8: bv16 := 0x0800
  const TEMP_RESOLUTION_14BIT: bv16 := 0x0000
  const TEMP_RESOLUTION_11BIT: bv16 := 0x0400
  const HUM_RESOLUTION_14BIT: bv16 := 0x0000
  const HUM_RESOLUTION_11BIT: bv16 := 0x0100
  const HUM_RESOLUTION_8BIT: bv16 := 0x0200

  // Identifiers the sensor is expected to report
  const DEVICE_ID: u16 := 0x1050
  const MANUFACTURER_ID: u16 := 0x5449

  // Temperature-unit selectors
  const TEMP_IN_CELSIUS: byte := 0x00
  const TEMP_IN_KELVIN: byte := 0x01
  const TEMP_IN_FAHRENHEIT: byte := 0x02

  /** The configuration options that set a bit (all others are 0x0000). */
  const SET_FLAGS: seq<bv16> := [SOFTWARE_RESET, HEATER_ENABLED, TEMP_FIRST,
    BAT_VOLT_SMALLER_THAN_2P8, TEMP_RESOLUTION_11BIT, HUM_RESOLUTION_8BIT, HUM_RESOLUTION_11BIT]

  /** The registers the driver's operations address. */
  const USED_REGISTERS: seq<byte> := [REG_TEMPERATURE, REG_HUMIDITY, REG_CONFIGURATION,
    REG_MANUFACTURER_ID, REG_DEVICE_ID]

  predicate IsSetFlag(f: bv16) {
    f == SOFTWARE_RESET || f == HEATER_ENABLED || f == TEMP_FIRST ||
    f == BAT_VOLT_SMALLER_THAN_2P8 || f == TEMP_RESOLUTION_11BIT ||
    f == HUM_RESOLUTION_8BIT || f == HUM_RESOLUTION_11BIT
  }

  /** The bitwise or of a list of configuration options, as a caller writes
      `A | B | C` before passing the word to the configuration write. */
  function Combine(fs: seq<bv16>): (w: bv16)
    ensures forall i :: 0 <= i < |fs| ==> fs[i] & w == fs[i]
  {
    if fs == [] then 0
    else
      var rest := Combine(fs[1..]);
      assert forall i :: 1 <= i < |fs| ==> fs[i] == fs[1..][i - 1];
      fs[0] | rest
  }

  /** The word the default configuration writes: normal operation, heater
      disabled, independent acquisition, 14-bit temperature and humidity. */
  const DEFAULT_CONFIG: bv16 := Combine([NORMAL_OPERATION, HEATER_DISABLED, TEMP_HUM_ACQUIRED,
    TEMP_RESOLUTION_14BIT, HUM_RESOLUTION_14BIT])

  /** Every option that sets a bit sets exactly one, and no two share it. */
  lemma SetFlagsAreDistinctBits(f: bv16, g: bv16)
    requires IsSetFlag(f) && IsSetFlag(g)
    ensures f != 0 && f & (f - 1) == 0
    ensures (f & g != 0) <==> f == g
  {
  }

  lemma SetFlagsListed()
    ensures forall i :: 0 <= i < |SET_FLAGS| ==> IsSetFlag(SET_FLAGS[i])
    ensures forall i, j :: 0 <= i < j < |SET_FLAGS| ==> SET_FLAGS[i] & SET_FLAGS[j] == 0
  {
  }

  lemma OrDistributesOverAnd(a: bv16, b: bv16, f: bv16)
    ensures (a | b) & f == (a & f) | (b & f)
  {
  }

  /** Or-combining options is lossless: from the combined word one can read
      back exactly which of the bit-setting options were included, whatever
      zero options were mixed in. */
  lemma {:induction false} CombineIsLossless(fs: seq<bv16>, f: bv16)
    requires forall i :: 0 <= i < |fs| ==> IsSetFlag(fs[i]) || fs[i] == 0
    requires IsSetFlag(f)
    ensures (Combine(fs) & f != 0) <==> f in fs
  {
    if fs != [] {
      CombineIsLossless(fs[1..], f);
      if fs[0] != 0 {
        SetFlagsAreDistinctBits(f, fs[0]);
      }
      OrDistributesOverAnd(fs[0], Combine(fs[1..]), f);
      assert f in fs <==> f == fs[0] || f in fs[1..];
    }
  }

  /** Options that set no bit contribute nothing to a combined word. */
  lemma {:induction false} CombineOfZeros(fs: seq<bv16>)
    requires forall i :: 0 <= i < |fs| ==> fs[i] == 0
    ensures Combine(fs) == 0
  {
    if fs != [] {
      CombineOfZeros(fs[1..]);
    }
  }

  /** The default options are all zero, so the default word is 0x0000. */
  lemma DefaultConfigIsZero()
    ensures DEFAULT_CONFIG == 0x0000
  {
    CombineOfZeros([NORMAL_OPERATION, HEATER_DISABLED, TEMP_HUM_ACQUIRED,
      TEMP_RESOLUTION_14BIT, HUM_RESOLUTION_14BIT]);
  }

  /** The registers the driver uses are pairwise distinct one-byte addresses. */
  lemma UsedRegistersDistinct()
    ensures forall i, j :: 0 <= i < j < |USED_REGISTERS| ==> USED_REGISTERS[i] != USED_REGISTERS[j]
  {
  }

  /** The unit selectors are Celsius 0, Kelvin 1, Fahrenheit 2, all different. */
  lemma UnitSelectorsDistinct()
    ensures TEMP_IN_CELSIUS as int == 0 && TEMP_IN_KELVIN as int == 1 && TEMP_IN_FAHRENHEIT as int == 2
    ensures TEMP_IN_CELSIUS != TEMP_IN_KELVIN && TEMP_IN_KELVIN != TEMP_IN_FAHRENHEIT && TEMP_IN_CELSIUS != TEMP_IN_FAHRENHEIT
  {
  }

  /** The slave address shifted left by one, for a controller that expects
      an 8-bit address. */
  const SHIFTED_SLAVE_ADDR: byte := ((DEVICE_SLAVE_ADDR as bv8) << 1) as byte

  /** The shifted address still fits in a byte, halves back to the 7-bit
      address and leaves the read/write bit clear. */
  lemma ShiftedSlaveAddrFits()
    ensures SHIFTED_SLAVE_ADDR as int / 2 == DEVICE_SLAVE_ADDR as int
    ensures SHIFTED_SLAVE_ADDR as int % 2 == 0
    ensures SHIFTED_SLAVE_ADDR == 0x80
  {
  }

  /** A word that mixes zero options with the temperature-first bit, as a
      caller might write it, still shows that bit. */
  lemma MixedOptionsExample()
    ensures Combine([NORMAL_OPERATION, HEATER_ENABLED, TEMP_FIRST]) & TEMP_FIRST != 0
    ensures Combine([NORMAL_OPERATION, HEATER_ENABLED, TEMP_FIRST]) & SOFTWARE_RESET == 0
  {
    CombineIsLossless([NORMAL_OPERATION, HEATER_ENABLED, TEMP_FIRST], TEMP_FIRST);
    CombineIsLossless([NORMAL_OPERATION, HEATER_ENABLED, TEMP_FIRST], SOFTWARE_RESET);
  }
}
