# Temp Hum 11 driver, modelled in Dafny

This project models the Temp Hum 11 sensor driver. The sensor is a temperature and humidity sensor at I2C slave address 0x40. The driver has two backends, one for Arduino (`Wire`) and one for STM32 (HAL). Both are modelled by a single `Driver` class that carries a `Backend` tag (`Arduino` or `Stm32`). The tag selects the three ways the backends differ:

- the address format: 7-bit `0x40` for `Wire`, shifted 8-bit `0x80` for the HAL;
- failure detection: the STM32 register read returns the 0 sentinel when the receive fails, and the Arduino read never fails;
- mode gating: the Arduino combined read honours the acquisition-mode flag, and the STM32 one always uses the bus.

The bus is abstract. Each driver keeps a ghost log, `sent`, of every transfer it issues. A transfer is either a transmit of bytes or a receive request for N bytes, and each is tagged with the bus address. What the sensor answers is passed in by the caller as a `Reply`: a status flag and the bytes that arrived. A receive copies the bytes that arrived into a zero-initialised buffer, so bytes that never arrive read as 0.

The model is split into four modules:

- `TempHum11` (`temphum11.dfy`): the header's constants, plus facts about them. The bit-setting configuration options are distinct single bits, so or-combining them is lossless. The default word is 0x0000. The registers used are distinct. The unit selectors are 0, 1 and 2. The shifted address fits in a byte.
- `Frames` (`frames.dfy`): the 3-byte configuration frame `[0x02, hi, lo]`, big-endian decoding and its inverse, and the contents of the receive buffer.
- `Conversion` (`conversion.dfy`): the raw-to-Celsius, Kelvin, Fahrenheit and %RH conversions. They use exact rationals, so 273.15 is the exact fraction 27315/100 and not a float. The module proves bounds over the full 16-bit domain, strict monotonicity, inverses and the worked examples.
- `Driver` (`driver.dfy`): specification functions for register reads, the combined read and the mode flag, and lemmas relating them. It also holds the `Driver` class, whose methods reproduce each driver entry point against those functions.

The STM32 `tempHum11_getTempAndHum` does not compile as written. It passes the literal `0x00` as the transmit data pointer (stm32/temphum11.c:85). It also writes to `*temperature` and `*humidity`, which are not its parameters (stm32/temphum11.c:92,95). The model follows the evident intent: it transmits the one-byte frame `[0x00]` (the temperature register) and writes the two outputs.

The out-pointers of the combined read are modelled as values. `temp0` and `hum0` are what the pointed-to variables held before the call, and `temp` and `hum` are what they hold after it.

## Model

| member | source | states |
|---|---|---|
| TempHum11.SetFlagsAreDistinctBits | temphum11.h:33-45 | each non-zero option (0x8000, 0x2000, 0x1000, 0x0800, 0x0400, 0x0200, 0x0100) is a single bit, and two such options share a bit only if they are the same option |
| TempHum11.SetFlagsListed | temphum11.h:33-45 | the list of bit-setting options has only such options, and they are pairwise disjoint |
| TempHum11.Combine | arduino/temphum11.cpp:40-42 | the bitwise or of a list of options, as callers write `A` or-ed with `B`; every listed option's bits are all set in the result |
| TempHum11.CombineIsLossless | temphum11.h:33-45 | for any or-combination of options, including zero options, a bit-setting option's bit is set in the word exactly when that option was included |
| TempHum11.MixedOptionsExample | temphum11.h:33-45 | the or of `NORMAL_OPERATION`, `HEATER_ENABLED` and `TEMP_FIRST` has the temperature-first bit set and the reset bit clear |
| TempHum11.CombineOfZeros | temphum11.h:33-43 | or-combining only zero options gives 0x0000 |
| TempHum11.DefaultConfigIsZero | temphum11.h:33-43 | normal operation, heater disabled, independent acquisition and 14-bit temperature and humidity combine to the word 0x0000 |
| TempHum11.UsedRegistersDistinct | temphum11.h:23-30 | the registers 0x00, 0x01, 0x02, 0xFE and 0xFF are pairwise distinct one-byte addresses |
| TempHum11.UnitSelectorsDistinct | temphum11.h:52-54 | Celsius is 0, Kelvin is 1, Fahrenheit is 2, and the three are distinct |
| TempHum11.ShiftedSlaveAddrFits | temphum11.h:20 | the 7-bit address 0x40 shifted left by one fits in a byte, halves back to 0x40, has the read/write bit clear, and is 0x80 |
| Frames.ConfigFrame | arduino/temphum11.cpp:24-28 | the configuration frame has exactly 3 bytes: register 0x02, then `config / 256` (the `>> 8`), then `config % 256` (the truncating `(uint8_t)` cast) |
| Frames.Decode16 | arduino/temphum11.cpp:59-60 | `(hi << 8) or lo` is below 65536, and its high and low bytes are `hi` and `lo` |
| Frames.Encode16 | arduino/temphum11.cpp:59-60 | the big-endian pair the sensor sends for a value: two bytes, high byte times 256 plus low byte being the value |
| Frames.DecodeEncode | arduino/temphum11.cpp:59-60 | decoding a value's big-endian pair gives the value back |
| Frames.EncodeDecode | arduino/temphum11.cpp:59-60 | encoding the decoded value gives the two received bytes back |
| Frames.ConfigFrameRoundTrip | arduino/temphum11.cpp:27-28 | decoding bytes 1..2 of a configuration frame as big-endian gives the configuration word back, for every 16-bit word |
| Frames.ConfigFrameInjective | arduino/temphum11.cpp:27-28 | two words with the same frame have the same value |
| Frames.Overlay | arduino/temphum11.cpp:57 | a receive into a buffer keeps its length, overwrites the first `min(n, len)` bytes with what arrived, and leaves the rest as it was |
| Frames.Received | arduino/temphum11.cpp:47-57 | the zero-initialised receive buffer has exactly the requested length |
| Frames.ReceivedComplete | arduino/temphum11.cpp:47-57 | a reply at least as long as the buffer fills it with the reply's first bytes |
| Frames.ReceivedPrefix | arduino/temphum11.cpp:47-57 | a reply shorter than the buffer fills the buffer's first bytes with what arrived |
| Frames.ReceivedShort | arduino/temphum11.cpp:47-57 | a reply shorter than the buffer leaves the missing bytes at 0 |
| Conversion.Celsius | arduino/temphum11.cpp:71 | `v / 65536 * 165 - 40` lies in [-40, 125) for every 16-bit `v` |
| Conversion.Humidity | arduino/temphum11.cpp:91 | `v / 65536 * 100` lies in [0, 100) for every 16-bit `v` |
| Conversion.Temperature | arduino/temphum11.cpp:65-83 | selector 1 (Kelvin) gives a value in [233.15, 398.15), selector 2 (Fahrenheit) a value in [-40, 257), and every other selector a Celsius value in [-40, 125) |
| Conversion.Kelvin | arduino/temphum11.cpp:73-76 | Kelvin is Celsius plus exactly 273.15, and is non-negative exactly from -273.15 degrees Celsius up |
| Conversion.Fahrenheit | arduino/temphum11.cpp:77-80 | 0 degrees Celsius is 32 degrees Fahrenheit, the scales agree only at -40, and `(f - 32) * 5 / 9` recovers Celsius |
| Conversion.CelsiusInverse | arduino/temphum11.cpp:71 | the Celsius conversion is inverted exactly by `(c + 40) * 65536 / 165` |
| Conversion.HumidityInverse | arduino/temphum11.cpp:91 | the humidity conversion is inverted exactly by `h * 65536 / 100` |
| Conversion.KelvinRoundTrip | arduino/temphum11.cpp:73-76 | Kelvin adds exactly 273.15, and subtracting it gives Celsius back |
| Conversion.FahrenheitRoundTrip | arduino/temphum11.cpp:77-80 | `c * 9 / 5 + 32` and `(f - 32) * 5 / 9` are mutual inverses |
| Conversion.CelsiusStrictlyIncreasing | arduino/temphum11.cpp:71 | Celsius is strictly increasing in the raw value and linear, at 165/65536 degrees per step |
| Conversion.HumidityStrictlyIncreasing | arduino/temphum11.cpp:91 | humidity is strictly increasing and linear, at 100/65536 percent per step |
| Conversion.TemperatureStrictlyIncreasing | arduino/temphum11.cpp:65-83 | in every unit the converted temperature is strictly increasing in the raw value |
| Conversion.TemperatureByUnit | arduino/temphum11.cpp:73-80 | Kelvin and Fahrenheit results convert back to the Celsius value, and any other selector yields Celsius unchanged |
| Conversion.ConversionEndpoints | arduino/temphum11.cpp:71-91 | raw 0 is -40 degrees Celsius and 0 %RH; raw 0xFFFF is 125 - 165/65536 degrees Celsius and 100 - 100/65536 %RH |
| Conversion.WorkedExamples | stm32/temphum11.c:48-77 | raw 0x8000 is 42.5 degrees Celsius, 315.65 K and 108.5 degrees Fahrenheit; raw humidity 0x4000 is 25 %RH |
| Driver.BusAddress | stm32/temphum11.c:20 | Arduino addresses the slave as 0x40, and STM32 as 0x40 shifted left by one, which is 0x80 |
| Driver.ReadTraffic | stm32/temphum11.c:36-38 | a register read is two transfers to the backend's address: the 1-byte frame `[reg]`, then a 2-byte receive |
| Driver.ReadValue | stm32/temphum11.c:38-45 | a detected STM32 receive failure gives 0; otherwise, with two bytes received, the result's high and low bytes are those bytes (Arduino at arduino/temphum11.cpp:56-62 never detects failure); a short reply leaves the missing low byte 0 |
| Driver.ReadValueRoundTrip | arduino/temphum11.cpp:45-63 | on either backend, a successful reply carrying a value's big-endian pair reads as that value |
| Driver.ReadValueOfReply | stm32/temphum11.c:38-45 | when no failure is detected and two bytes arrive, the read returns `hi*256 + lo`, whose big-endian pair is the bytes received |
| Driver.FailureLooksLikeZero | stm32/temphum11.c:38-40 | the STM32 read returns 0 on a failed receive whatever bytes arrived, which cannot be told apart from a genuine zero reading |
| Driver.ArduinoIgnoresStatus | arduino/temphum11.cpp:56-62 | the Arduino read gives the same value whatever the receive status |
| Driver.CombinedUsesBus | arduino/temphum11.cpp:101 | the STM32 combined read always uses the bus (stm32/temphum11.c:85-87); the Arduino one does exactly in mode 1 |
| Driver.CombinedTraffic | stm32/temphum11.c:85-87 | a combined read is two transfers to the backend's address: `[0x00]`, then a 4-byte receive |
| Driver.CombinedReading | arduino/temphum11.cpp:101-120 | zeros when the bus is not used; the previous outputs, untouched, after an STM32 receive failure (stm32/temphum11.c:87-89); otherwise a temperature in [-40, 125) and a humidity in [0, 100) decoded from bytes 0..1 and 2..3 |
| Driver.CombinedMatchesSingleReads | arduino/temphum11.cpp:109-113 | when the combined read uses the bus and succeeds, it gives the Celsius and humidity conversions of what single register reads of bytes 0..1 and 2..3 would give |
| Driver.CombinedRoundTrip | stm32/temphum11.c:87-95 | a combined read of the encodings of `t` and `h` yields `Celsius(t)` and `Humidity(h)` |
| Driver.ModeGating | arduino/temphum11.cpp:101-120 | in any mode other than 1 the Arduino combined read yields zeros, and the STM32 combined read does not depend on the mode |
| Driver.ModeAfter | arduino/temphum11.cpp:135-149 | a request of 0 or 1 sets the flag to the request; any other request leaves it as it was |
| Driver.ModeConfig | arduino/temphum11.cpp:137-147 | the word a valid request writes is 0x0000 or 0x1000, with the temperature-first bit set exactly for request 1 |
| Driver.ModeTraffic | arduino/temphum11.cpp:135-149 | request 0 sends the frame `[0x02, 0x00, 0x00]`, request 1 `[0x02, 0x10, 0x00]`, and any other request sends nothing |
| Driver.ModeFlagMirrorsConfig | arduino/temphum11.cpp:135-149 | a valid mode request writes a word whose temperature-first bit is set exactly when the flag becomes 1; these words' frames are `[0x02,0x00,0x00]` and `[0x02,0x10,0x00]` |
| Driver.InvalidRequestsAreNoOps | arduino/temphum11.cpp:135-149 | a sequence of requests other than 0 or 1 leaves the flag unchanged and sends nothing |
| Driver.LastValidRequestWins | arduino/temphum11.cpp:135-149 | after a sequence of mode requests, the flag is the last request that was 0 or 1 |
| Driver.ModeAfterAllSnoc | arduino/temphum11.cpp:135-149 | one more request applies one more flag update to the fold |
| Driver.ModeTrafficAllSnoc | arduino/temphum11.cpp:135-149 | one more request appends exactly its own traffic |
| Driver.ModeSequenceExample | stm32/temphum11.c:110-124 | requests 0, 1, 0 send the frames for 0x0000, 0x1000 and 0x0000, in that order, and end in mode 0 |
| Driver.ReadBytes | arduino/temphum11.cpp:57 | the receive copies `min(n, len)` arrived bytes into the buffer in order, reports that count, and leaves the rest of the buffer as it was |
| Driver.Driver.constructor | arduino/temphum11.cpp:5 | the mode flag starts at 0, nothing has been sent, and the flag invariant (0 or 1) holds; every method after it requires and preserves that invariant |
| Driver.Driver.WriteConfig | arduino/temphum11.cpp:22-36 | appends exactly one transmit to the log: the frame `[0x02, c/256, c%256]` to the backend's address. The Arduino path pushes it byte by byte in order; STM32 (stm32/temphum11.c:12-21) sends the buffer whole. The mode is unchanged |
| Driver.Driver.SetDefaultCfg | stm32/temphum11.c:23-28 | transmits the frame `[0x02, 0x00, 0x00]`, and only that |
| Driver.Driver.ReadData | stm32/temphum11.c:30-46 | logs the 1-byte frame `[reg]`, then a 2-byte receive, and returns `ReadValue`: 0 on a detected STM32 failure, otherwise the big-endian pair. The transmit status is not consulted |
| Driver.Driver.GetTemperature | stm32/temphum11.c:48-66 | reads register 0x00 and returns its conversion in the selected unit |
| Driver.Driver.GetHumidity | arduino/temphum11.cpp:85-94 | reads register 0x01 and returns its %RH conversion |
| Driver.Driver.GetTempAndHum | stm32/temphum11.c:79-96 | logs `[0x00]` and a 4-byte receive only when the bus is used (always on STM32, in mode 1 on Arduino as at arduino/temphum11.cpp:96-121). The outputs are zeros without the bus, left untouched after an STM32 receive failure, and otherwise the conversions of bytes 0..1 and 2..3. On Arduino no traffic is added exactly in mode 0 |
| Driver.Driver.GetDeviceId | arduino/temphum11.cpp:123-127 | reads register 0xFF and returns the raw value unchanged |
| Driver.Driver.GetManufactureId | arduino/temphum11.cpp:129-133 | reads register 0xFE and returns the raw value unchanged |
| Driver.Driver.SetDataInMode | arduino/temphum11.cpp:135-149 | request 0 writes 0x0000 and sets mode 0, request 1 writes 0x1000 and sets mode 1, and any other request sends nothing and keeps the mode; the flag invariant is preserved |
| Driver.ModeSequenceScenario | arduino/temphum11.cpp:96-149 | on a fresh Arduino driver, after requests 0, 1, 0, a combined read yields zeros and the mode is 0 |
| Driver.SetModes | arduino/temphum11.cpp:135-149 | a driver taken through mode requests one call at a time ends with the fold's flag and has logged the fold's traffic, in order |
| Driver.SetModesThenRead | arduino/temphum11.cpp:96-149 | after a sequence of mode requests, the flag is the last valid request, and a combined read behaves as that mode selects |

## Left out

- `tempHum11_open` (arduino/temphum11.cpp:7-20, empty at stm32/temphum11.c:7-10): selecting the `Wire` port and starting the bus at 100 kHz is platform setup with no driver logic.
- The I2C transport (`TwoWire`, `HAL_I2C_Master_Transmit`/`Receive`) is replaced by the log of transfers plus the caller's `Reply`. Transmit statuses are not modelled because neither backend checks them. Bus timeouts are not modelled.
- The settling delays `delay(10)`, `delay(15)` and `HAL_Delay` only affect timing, so they are left out.
- IEEE float rounding: the conversions are exact rationals. The model says nothing about `float` precision. The source's intermediate `(float)` cast is also not modelled.
- Comparing the identifiers against 0x1050 and 0x5449 is done by the caller. The constants are defined but no driver operation uses them.
- The serial-ID registers 0xFB to 0xFD are defined as constants only. No operation reads them.
- Driver.Driver.GetTempAndHum: the two out-pointers are modelled as separate values, so the case where both point to the same variable is not modelled.
- Frames.ConfigFrameInjective: concludes that the two words are equal as integers rather than as bit-vectors, because the solver does not prove the bit-vector form.
- The STM32 combined read is modelled as intended, not as written. The literal `0x00` data pointer and the undeclared `*temperature`/`*humidity` targets are not modelled.
- The mode flag `dataMode` is an ordinary field, which Dafny cannot hide the way the source's file-static `data_mode` is hidden. The methods therefore require the invariant `Valid()` (flag 0 or 1) and preserve it, and nothing but the mode request is meant to assign the flag.
