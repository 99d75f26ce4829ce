/** The Temp Hum 11 driver over an abstract I2C transport. The bus is
    represented by a ghost log of the transfers the driver issues; what the
    sensor answers is supplied by the caller as a `Reply`. The two backends
    (Arduino `Wire` and STM32 HAL) are one `Driver` with a `Backend` tag. */
module Driver {
  import opened TempHum11
  import opened Frames
  import opened Conversion

  /** The platform the driver is built for. They differ in the address
      format, in whether a failed receive is detected, and in whether the
      combined read honours the acquisition mode. */
  datatype Backend = Arduino | Stm32

  /** One bus transaction: a write of some bytes, or a request for a number
      of bytes from the slave at `addr`. */
  datatype Transfer =
    | Transmit(addr: byte, bytes: seq<byte>)
    | Receive(addr: byte, count: nat)

  /** What the transport hands back for a receive: whether it reported
      success, and the bytes that arrived. */
  datatype Reply = Reply(ok: bool, data: seq<byte>)

  /** A temperature (degrees Celsius) and humidity (percent) pair. */
  datatype Reading = Reading(temperature: real, humidity: real)

  /** The slave address as each bus library wants it: `Wire` takes the
      7-bit address, the HAL the 7-bit address shifted left by one. */
  function BusAddress(backend: Backend): (a: byte)
    ensures backend == Arduino ==> a == DEVICE_SLAVE_ADDR
    ensures backend == Stm32 ==> a as int == 2 * DEVICE_SLAVE_ADDR as int && a == 0x80
  {
    match backend
    case Arduino => DEVICE_SLAVE_ADDR
    case Stm32 => SHIFTED_SLAVE_ADDR
  }

  // ---------------------------------------------------------------------
  // Specification of a register read
  // ---------------------------------------------------------------------

  /** The traffic of a register read: the register address alone, then a
      request for two bytes. */
  function ReadTraffic(backend: Backend, reg: byte): (t: seq<Transfer>)
    ensures |t| == 2 && t[0].Transmit? && t[1].Receive?
    ensures t[0].addr == t[1].addr == BusAddress(backend)
    ensures t[0].bytes == [reg] && t[1].count == 2
  {
    [Transmit(BusAddress(backend), [reg]), Receive(BusAddress(backend), 2)]
  }

  /** The value a register read returns. The STM32 backend returns the 0
      sentinel when the receive reports failure; the Arduino backend has no
      failure path. Bytes that did not arrive read as 0, the buffer being
      zero-initialised. */
  function ReadValue(backend: Backend, reply: Reply): (v: u16)
    ensures backend == Stm32 && !reply.ok ==> v == 0
    ensures (backend == Arduino || reply.ok) && |reply.data| >= 2 ==>
      v / 256 == reply.data[0] as int && v % 256 == reply.data[1] as int
    ensures (backend == Arduino || reply.ok) && |reply.data| < 2 ==> v % 256 == 0
  {
    if backend == Stm32 && !reply.ok then 0
    else
      var buf := Received(reply.data, 2);
      Decode16(buf[0], buf[1])
  }

  /** A successful reply carrying the big-endian encoding of `v` reads as `v`,
      on either backend. */
  lemma {:induction false} ReadValueRoundTrip(backend: Backend, v: u16)
    ensures ReadValue(backend, Reply(true, Encode16(v))) == v
  {
    ReceivedComplete(Encode16(v), 2);
    DecodeEncode(v);
  }

  /** When two bytes arrive and no failure is detected, the result is their
      big-endian value; it is always below 65536. */
  lemma {:induction false} ReadValueOfReply(backend: Backend, reply: Reply)
    requires backend == Arduino || reply.ok
    requires |reply.data| >= 2
    ensures ReadValue(backend, reply) == reply.data[0] as int * 256 + reply.data[1] as int
    ensures Encode16(ReadValue(backend, reply)) == reply.data[..2]
  {
    ReceivedComplete(reply.data, 2);
    EncodeDecode(reply.data[0], reply.data[1]);
  }

  /** On the STM32 backend a failed receive and a genuine zero reading give
      the same result, whatever bytes were in the failed reply. */
  lemma FailureLooksLikeZero(data: seq<byte>)
    ensures ReadValue(Stm32, Reply(false, data)) == 0
    ensures ReadValue(Stm32, Reply(true, [0, 0])) == 0
  {
  }

  /** The Arduino backend does not look at the receive status. */
  lemma {:induction false} ArduinoIgnoresStatus(data: seq<byte>)
    ensures ReadValue(Arduino, Reply(false, data)) == ReadValue(Arduino, Reply(true, data))
  {
  }

  // ---------------------------------------------------------------------
  // Specification of the combined read
  // ---------------------------------------------------------------------

  /** Whether the combined read goes to the bus: always on STM32, only in
      combined acquisition mode (1) on Arduino. */
  predicate CombinedUsesBus(backend: Backend, mode: byte): (uses: bool)
    ensures backend == Stm32 ==> uses
    ensures backend == Arduino ==> (uses <==> mode == 1)
  {
    backend == Stm32 || mode == 1
  }

  /** The traffic of a combined read: the temperature register's address,
      then a request for four bytes. */
  function CombinedTraffic(backend: Backend): (t: seq<Transfer>)
    ensures |t| == 2 && t[0].Transmit? && t[1].Receive?
    ensures t[0].addr == t[1].addr == BusAddress(backend)
    ensures t[0].bytes == [REG_TEMPERATURE] && t[1].count == 4
  {
    [Transmit(BusAddress(backend), [REG_TEMPERATURE]), Receive(BusAddress(backend), 4)]
  }

  /** What the combined read leaves in its two outputs, which held `prev`
      before: zeros when it does not use the bus, `prev` untouched after a
      detected receive failure, and otherwise bytes 0..1 as temperature and
      bytes 2..3 as humidity. */
  function CombinedReading(backend: Backend, mode: byte, reply: Reply, prev: Reading): (r: Reading)
    ensures !CombinedUsesBus(backend, mode) ==> r == Reading(0.0, 0.0)
    ensures CombinedUsesBus(backend, mode) && backend == Stm32 && !reply.ok ==> r == prev
    ensures CombinedUsesBus(backend, mode) && (backend == Arduino || reply.ok) ==>
      -40.0 <= r.temperature < 125.0 && 0.0 <= r.humidity < 100.0
  {
    if !CombinedUsesBus(backend, mode) then Reading(0.0, 0.0)
    else if backend == Stm32 && !reply.ok then prev
    else
      var buf := Received(reply.data, 4);
      Reading(Celsius(Decode16(buf[0], buf[1])), Humidity(Decode16(buf[2], buf[3])))
  }

  /** The combined read converts exactly as two single reads of its halves
      would (temperature in Celsius). */
  lemma {:induction false} CombinedMatchesSingleReads(backend: Backend, mode: byte, reply: Reply, prev: Reading)
    requires CombinedUsesBus(backend, mode)
    requires backend == Arduino || reply.ok
    requires |reply.data| >= 4
    ensures CombinedReading(backend, mode, reply, prev) ==
      Reading(Temperature(ReadValue(backend, Reply(true, reply.data[..2])), TEMP_IN_CELSIUS),
              Humidity(ReadValue(backend, Reply(true, reply.data[2..4]))))
  {
    ReceivedComplete(reply.data, 4);
    ReceivedComplete(reply.data[..2], 2);
    ReceivedComplete(reply.data[2..4], 2);
  }

  /** A combined read of the encodings of `t` and `h` yields their conversions. */
  lemma {:induction false} CombinedRoundTrip(backend: Backend, mode: byte, t: u16, h: u16, prev: Reading)
    requires CombinedUsesBus(backend, mode)
    ensures CombinedReading(backend, mode, Reply(true, Encode16(t) + Encode16(h)), prev) ==
      Reading(Celsius(t), Humidity(h))
  {
    var data := Encode16(t) + Encode16(h);
    CombinedMatchesSingleReads(backend, mode, Reply(true, data), prev);
    assert data[..2] == Encode16(t) && data[2..4] == Encode16(h);
    ReadValueRoundTrip(backend, t);
    ReadValueRoundTrip(backend, h);
  }

  /** In independent mode the Arduino combined read yields zeros; the STM32
      one does not depend on the mode at all. */
  lemma ModeGating(mode: byte, mode2: byte, reply: Reply, prev: Reading)
    ensures mode != 1 ==> CombinedReading(Arduino, mode, reply, prev) == Reading(0.0, 0.0)
    ensures CombinedReading(Stm32, mode, reply, prev) == CombinedReading(Stm32, mode2, reply, prev)
  {
  }

  // ---------------------------------------------------------------------
  // Specification of the acquisition-mode flag
  // ---------------------------------------------------------------------

  /** The flag after a mode request: 0 and 1 select that mode, anything
      else leaves the flag as it was. */
  function ModeAfter(mode: byte, request: byte): (m: byte)
    ensures request <= 1 ==> m == request
    ensures request > 1 ==> m == mode
  {
    if request == 0 then 0 else if request == 1 then 1 else mode
  }

  /** The configuration word each valid mode request writes. */
  function ModeConfig(request: byte): (w: bv16)
    requires request <= 1
    ensures w == 0 || w == TEMP_FIRST
    ensures (w & TEMP_FIRST != 0) <==> request == 1
  {
    if request == 0 then TEMP_HUM_ACQUIRED else TEMP_FIRST
  }

  /** The traffic of a mode request: one configuration frame, or nothing for
      an invalid request. */
  function ModeTraffic(backend: Backend, request: byte): (t: seq<Transfer>)
    ensures request == 0 ==> t == [Transmit(BusAddress(backend), [REG_CONFIGURATION, 0x00, 0x00])]
    ensures request == 1 ==> t == [Transmit(BusAddress(backend), [REG_CONFIGURATION, 0x10, 0x00])]
    ensures request > 1 ==> t == []
  {
    if request <= 1 then [Transmit(BusAddress(backend), ConfigFrame(ModeConfig(request)))] else []
  }

  /** The flag after a sequence of mode requests, in order. */
  function ModeAfterAll(mode: byte, requests: seq<byte>): byte
    decreases requests
  {
    if requests == [] then mode else ModeAfterAll(ModeAfter(mode, requests[0]), requests[1..])
  }

  /** The traffic of a sequence of mode requests, in order. */
  function ModeTrafficAll(backend: Backend, requests: seq<byte>): seq<Transfer> {
    if requests == [] then [] else ModeTraffic(backend, requests[0]) + ModeTrafficAll(backend, requests[1..])
  }

  /** A mode request sets the flag exactly when it writes a frame, and the
      acquisition bit of the word it writes says which mode the flag holds. */
  lemma ModeFlagMirrorsConfig(mode: byte, request: byte)
    requires request <= 1
    ensures (ModeConfig(request) & TEMP_FIRST != 0) <==> ModeAfter(mode, request) == 1
    ensures ConfigFrame(ModeConfig(request)) == [REG_CONFIGURATION, if request == 0 then 0x00 else 0x10, 0x00]
  {
  }

  /** Requests that are all invalid change nothing and send nothing. */
  lemma {:induction false} InvalidRequestsAreNoOps(backend: Backend, mode: byte, requests: seq<byte>)
    requires forall j :: 0 <= j < |requests| ==> requests[j] > 1
    ensures ModeAfterAll(mode, requests) == mode
    ensures ModeTrafficAll(backend, requests) == []
  {
    if requests != [] {
      InvalidRequestsAreNoOps(backend, mode, requests[1..]);
    }
  }

  /** The last valid request wins, whatever came before it. */
  lemma {:induction false} LastValidRequestWins(mode: byte, requests: seq<byte>, i: nat)
    requires i < |requests| && requests[i] <= 1
    requires forall j :: i < j < |requests| ==> requests[j] > 1
    ensures ModeAfterAll(mode, requests) == requests[i]
    decreases requests
  {
    if i == 0 {
      InvalidRequestsAreNoOps(Arduino, ModeAfter(mode, requests[0]), requests[1..]);
    } else {
      LastValidRequestWins(ModeAfter(mode, requests[0]), requests[1..], i - 1);
    }
  }

  /** Appending one request to a sequence applies one more flag update. */
  lemma {:induction false} ModeAfterAllSnoc(mode: byte, requests: seq<byte>, r: byte)
    ensures ModeAfterAll(mode, requests + [r]) == ModeAfter(ModeAfterAll(mode, requests), r)
    decreases requests
  {
    if requests == [] {
      assert [] + [r] == [r];
    } else {
      assert (requests + [r])[1..] == requests[1..] + [r];
      ModeAfterAllSnoc(ModeAfter(mode, requests[0]), requests[1..], r);
    }
  }

  /** Appending one request to a sequence appends its traffic. */
  lemma {:induction false} ModeTrafficAllSnoc(backend: Backend, requests: seq<byte>, r: byte)
    ensures ModeTrafficAll(backend, requests + [r]) == ModeTrafficAll(backend, requests) + ModeTraffic(backend, r)
  {
    if requests == [] {
      assert [] + [r] == [r];
    } else {
      assert (requests + [r])[1..] == requests[1..] + [r];
      ModeTrafficAllSnoc(backend, requests[1..], r);
    }
  }

  /** Requests 0, 1, 0 write the independent, temperature-first and
      independent words in that order and end in independent mode. */
  lemma ModeSequenceExample(backend: Backend, mode: byte)
    ensures ModeAfterAll(mode, [0, 1, 0]) == 0
    ensures ModeTrafficAll(backend, [0, 1, 0]) ==
      [Transmit(BusAddress(backend), [REG_CONFIGURATION, 0x00, 0x00]),
       Transmit(BusAddress(backend), [REG_CONFIGURATION, 0x10, 0x00]),
       Transmit(BusAddress(backend), [REG_CONFIGURATION, 0x00, 0x00])]
  {
    assert [0, 1, 0][1..] == [1, 0] && [1, 0][1..] == [0] && [0][1..] == [];
  }

  // ---------------------------------------------------------------------
  // The transport's receive
  // ---------------------------------------------------------------------

  /** Copies the bytes that arrived into `buf`, up to its length, and
      returns how many were copied; the rest of `buf` is left as it was. */
  method ReadBytes(buf: array<byte>, data: seq<byte>) returns (count: nat)
    modifies buf
    ensures count == if |data| < buf.Length then |data| else buf.Length
    ensures buf[..] == Overlay(old(buf[..]), data)
  {
    count := if |data| < buf.Length then |data| else buf.Length;
    for i := 0 to count
      invariant forall k :: 0 <= k < i ==> buf[k] == data[k]
      invariant forall k :: i <= k < buf.Length ==> buf[k] == old(buf[k])
    {
      buf[i] := data[i];
    }
  }

  // ---------------------------------------------------------------------
  // The driver
  // ---------------------------------------------------------------------

  class Driver {
    /** Which backend this driver is. */
    const backend: Backend
    /** The acquisition-mode flag: 0 independent, 1 combined. */
    var dataMode: byte
    /** Every transfer issued on the bus so far, oldest first. */
    ghost var sent: seq<Transfer>

    /** The flag holds 0 or 1: in the source it is file-static and only the
        mode request writes it, so callers never assign it directly. */
    ghost predicate Valid()
      reads this
    {
      dataMode <= 1
    }

    /** A fresh driver: the flag starts at 0 and nothing has been sent. */
    constructor (backend: Backend)
      ensures this.backend == backend
      ensures dataMode == 0 && sent == []
      ensures Valid()
    {
      this.backend := backend;
      dataMode := 0;
      sent := [];
    }

    /** Sends `config` to the configuration register as one 3-byte frame. */
    method WriteConfig(config: bv16)
      requires Valid()
      modifies this
      ensures Valid()
      ensures dataMode == old(dataMode)
      ensures sent == old(sent) + [Transmit(BusAddress(backend), ConfigFrame(config))]
    {
      var writeReg := new byte[3];
      writeReg[0] := REG_CONFIGURATION;
      writeReg[1] := HighByte(config as int);
      writeReg[2] := LowByte(config as int);
      assert writeReg[..] == ConfigFrame(config);
      var frame: seq<byte>;
      match backend {
        case Arduino =>
          // `Wire` queues one byte per `write` until the transmission ends.
          frame := [];
          for i := 0 to 3
            invariant writeReg[..] == ConfigFrame(config)
            invariant frame == writeReg[..i]
          {
            frame := frame + [writeReg[i]];
          }
          assert writeReg[..3] == writeReg[..];
        case Stm32 =>
          frame := writeReg[..];
      }
      sent := sent + [Transmit(BusAddress(backend), frame)];
    }

    /** Writes the default configuration, which is the all-zero word. */
    method SetDefaultCfg()
      requires Valid()
      modifies this
      ensures Valid()
      ensures dataMode == old(dataMode)
      ensures sent == old(sent) + [Transmit(BusAddress(backend), [REG_CONFIGURATION, 0x00, 0x00])]
    {
      DefaultConfigIsZero();
      WriteConfig(DEFAULT_CONFIG);
    }

    /** Sends the register address, requests two bytes and decodes them. */
    method ReadData(reg: byte, reply: Reply) returns (value: u16)
      requires Valid()
      modifies this
      ensures Valid()
      ensures dataMode == old(dataMode)
      ensures sent == old(sent) + ReadTraffic(backend, reg)
      ensures value == ReadValue(backend, reply)
    {
      var readReg := new byte[2](_ => 0);
      assert readReg[..] == seq(2, _ => 0);
      var addr := BusAddress(backend);
      sent := sent + [Transmit(addr, [reg])];
      sent := sent + [Receive(addr, 2)];
      assert sent == old(sent) + ReadTraffic(backend, reg);
      var _ := ReadBytes(readReg, reply.data);
      assert readReg[..] == Received(reply.data, 2);
      if backend == Stm32 && !reply.ok {
        return 0;
      }
      value := Decode16(readReg[0], readReg[1]);
    }

    /** Reads the temperature register and converts it to the selected unit. */
    method GetTemperature(unit: byte, reply: Reply) returns (temperature: real)
      requires Valid()
      modifies this
      ensures Valid()
      ensures dataMode == old(dataMode)
      ensures sent == old(sent) + ReadTraffic(backend, REG_TEMPERATURE)
      ensures temperature == Temperature(ReadValue(backend, reply), unit)
    {
      var tempOut := ReadData(REG_TEMPERATURE, reply);
      temperature := Temperature(tempOut, unit);
    }

    /** Reads the humidity register and converts it to percent. */
    method GetHumidity(reply: Reply) returns (humidity: real)
      requires Valid()
      modifies this
      ensures Valid()
      ensures dataMode == old(dataMode)
      ensures sent == old(sent) + ReadTraffic(backend, REG_HUMIDITY)
      ensures humidity == Humidity(ReadValue(backend, reply))
    {
      var humOut := ReadData(REG_HUMIDITY, reply);
      humidity := Humidity(humOut);
    }

    /** Reads temperature and humidity in one transaction. The out-pointers'
        targets are `temp0`/`hum0` before the call and `temp`/`hum` after. */
    method GetTempAndHum(reply: Reply, temp0: real, hum0: real) returns (temp: real, hum: real)
      requires Valid()
      modifies this
      ensures Valid()
      ensures dataMode == old(dataMode)
      ensures sent == old(sent) + if CombinedUsesBus(backend, dataMode) then CombinedTraffic(backend) else []
      ensures Reading(temp, hum) == CombinedReading(backend, dataMode, reply, Reading(temp0, hum0))
      ensures backend == Arduino ==> (sent == old(sent) <==> dataMode == 0)
    {
      temp, hum := temp0, hum0;
      var readReg := new byte[4](_ => 0);
      var addr := BusAddress(backend);
      match backend
      case Arduino =>
        if dataMode == 1 {
          sent := sent + [Transmit(addr, [REG_TEMPERATURE])];
          sent := sent + [Receive(addr, 4)];
          var _ := ReadBytes(readReg, reply.data);
          temp := Celsius(Decode16(readReg[0], readReg[1]));
          hum := Humidity(Decode16(readReg[2], readReg[3]));
        } else {
          temp, hum := 0.0, 0.0;
        }
      case Stm32 =>
        sent := sent + [Transmit(addr, [REG_TEMPERATURE])];
        sent := sent + [Receive(addr, 4)];
        var _ := ReadBytes(readReg, reply.data);
        if !reply.ok {
          return;
        }
        temp := Celsius(Decode16(readReg[0], readReg[1]));
        hum := Humidity(Decode16(readReg[2], readReg[3]));
    }

    /** Reads the device-identifier register and returns it unchanged. */
    method GetDeviceId(reply: Reply) returns (id: u16)
      requires Valid()
      modifies this
      ensures Valid()
      ensures dataMode == old(dataMode)
      ensures sent == old(sent) + ReadTraffic(backend, REG_DEVICE_ID)
      ensures id == ReadValue(backend, reply)
    {
      id := ReadData(REG_DEVICE_ID, reply);
    }

    /** Reads the manufacturer-identifier register and returns it unchanged. */
    method GetManufactureId(reply: Reply) returns (id: u16)
      requires Valid()
      modifies this
      ensures Valid()
      ensures dataMode == old(dataMode)
      ensures sent == old(sent) + ReadTraffic(backend, REG_MANUFACTURER_ID)
      ensures id == ReadValue(backend, reply)
    {
      id := ReadData(REG_MANUFACTURER_ID, reply);
    }

    /** Selects the acquisition mode: 0 writes the independent word, 1 the
        temperature-first word; other values do nothing. */
    method SetDataInMode(mode: byte)
      requires Valid()
      modifies this
      ensures Valid()
      ensures dataMode == ModeAfter(old(dataMode), mode)
      ensures sent == old(sent) + ModeTraffic(backend, mode)
    {
      if mode == 0 {
        WriteConfig(TEMP_HUM_ACQUIRED);
        dataMode := 0;
      } else if mode == 1 {
        WriteConfig(TEMP_FIRST);
        dataMode := 1;
      }
    }
  }

  /** Driving a fresh Arduino driver through mode requests 0, 1, 0 and then
      a combined read: the read yields zeros and adds no traffic. */
  method ModeSequenceScenario(reply: Reply) returns (mode: byte, temp: real, hum: real)
    ensures mode == 0 && temp == 0.0 && hum == 0.0
  {
    var d := new Driver(Arduino);
    d.SetDataInMode(0);
    d.SetDataInMode(1);
    d.SetDataInMode(0);
    ghost var before := d.sent;
    temp, hum := d.GetTempAndHum(reply, 1.0, 1.0);
    assert d.sent == before;
    mode := d.dataMode;
  }

  /** Issues a sequence of mode requests in order: the flag and the traffic
      are those of the requests' fold. */
  method SetModes(d: Driver, requests: seq<byte>)
    requires d.Valid()
    modifies d
    ensures d.Valid()
    ensures d.dataMode == ModeAfterAll(old(d.dataMode), requests)
    ensures d.sent == old(d.sent) + ModeTrafficAll(d.backend, requests)
  {
    for i := 0 to |requests|
      invariant d.Valid()
      invariant d.dataMode == ModeAfterAll(old(d.dataMode), requests[..i])
      invariant d.sent == old(d.sent) + ModeTrafficAll(d.backend, requests[..i])
    {
      assert requests[..i + 1] == requests[..i] + [requests[i]];
      ModeAfterAllSnoc(old(d.dataMode), requests[..i], requests[i]);
      ModeTrafficAllSnoc(d.backend, requests[..i], requests[i]);
      d.SetDataInMode(requests[i]);
    }
    assert requests[..|requests|] == requests;
  }

  /** After a sequence of mode requests, a combined read behaves as the last
      valid request selected. */
  method SetModesThenRead(d: Driver, requests: seq<byte>, i: nat, reply: Reply, temp0: real, hum0: real)
    returns (temp: real, hum: real)
    requires d.Valid()
    requires i < |requests| && requests[i] <= 1
    requires forall j :: i < j < |requests| ==> requests[j] > 1
    modifies d
    ensures d.Valid() && d.dataMode == requests[i]
    ensures Reading(temp, hum) == CombinedReading(d.backend, requests[i], reply, Reading(temp0, hum0))
  {
    SetModes(d, requests);
    LastValidRequestWins(old(d.dataMode), requests, i);
    temp, hum := d.GetTempAndHum(reply, temp0, hum0);
  }
}
