/** The byte layout of what the driver puts on and takes off the bus: the
    3-byte configuration frame and big-endian 16-bit register values. */
module Frames {
  import opened TempHum11

  /** The high byte of a 16-bit word: `(uint8_t)(w >> 8)`, which for an
      unsigned word is the quotient by 256. */
  function HighByte(w: u16): byte {
    (w / 256) as byte
  }

  /** The low byte of a 16-bit word: the truncating cast `(uint8_t)w`, which
      keeps the remainder by 256. */
  function LowByte(w: u16): byte {
    (w % 256) as byte
  }

  /** The frame a configuration write transmits: the configuration register's
      address, then the word's high byte, then its low byte. */
  function ConfigFrame(config: bv16): (f: seq<byte>)
    ensures |f| == 3
    ensures f[0] == REG_CONFIGURATION
    ensures f[1] as int == config as int / 256 && f[2] as int == config as int % 256
  {
    [REG_CONFIGURATION, HighByte(config as int), LowByte(config as int)]
  }

  /** Two received bytes, high byte first, read as one 16-bit value. */
  function Decode16(hi: byte, lo: byte): (v: u16)
    ensures v / 256 == hi as int && v % 256 == lo as int
  {
    hi as int * 256 + lo as int
  }

  /** The big-endian byte pair of a 16-bit value: how the sensor sends it. */
  function Encode16(v: u16): (bytes: seq<byte>)
    ensures |bytes| == 2 && bytes[0] as int * 256 + bytes[1] as int == v
  {
    [HighByte(v), LowByte(v)]
  }

  lemma {:induction false} DecodeEncode(v: u16)
    ensures Decode16(Encode16(v)[0], Encode16(v)[1]) == v
  {
    var e := Encode16(v);
    assert e[0] as int * 256 + e[1] as int == v;
  }

  lemma {:induction false} EncodeDecode(hi: byte, lo: byte)
    ensures Encode16(Decode16(hi, lo)) == [hi, lo]
  {
    var v := Decode16(hi, lo);
    assert (v / 256) as byte == hi && (v % 256) as byte == lo;
  }

  /** Reading the two data bytes of a configuration frame back as a
      big-endian value gives the configuration word that was written. */
  lemma {:induction false} ConfigFrameRoundTrip(config: bv16)
    ensures Decode16(ConfigFrame(config)[1], ConfigFrame(config)[2]) == config as int
  {
    var f := ConfigFrame(config);
    assert f[1] as int * 256 + f[2] as int == config as int;
  }

  /** Distinct configuration words give distinct frames. */
  lemma {:induction false} ConfigFrameInjective(c1: bv16, c2: bv16)
    requires ConfigFrame(c1) == ConfigFrame(c2)
    ensures c1 as int == c2 as int
  {
    ConfigFrameRoundTrip(c1);
    ConfigFrameRoundTrip(c2);
  }

  /** A receive buffer of `n` bytes that starts as `prev` after `data` has
      arrived: the first `min(n, |data|)` bytes are overwritten in order, the
      rest keep their earlier contents. */
  function Overlay(prev: seq<byte>, data: seq<byte>): (buf: seq<byte>)
    ensures |buf| == |prev|
    ensures var k := if |data| < |prev| then |data| else |prev|;
      buf[..k] == data[..k] && buf[k..] == prev[k..]
  {
    seq(|prev|, i requires 0 <= i < |prev| => if i < |data| then data[i] else prev[i])
  }

  /** A zero-initialised buffer of `n` bytes after `data` has arrived. */
  function Received(data: seq<byte>, n: nat): (buf: seq<byte>)
    ensures |buf| == n
  {
    Overlay(seq(n, _ => 0), data)
  }

  /** A reply at least as long as the buffer fills it completely. */
  lemma ReceivedComplete(data: seq<byte>, n: nat)
    requires n <= |data|
    ensures Received(data, n) == data[..n]
  {
  }

  /** A reply shorter than the buffer fills the buffer's first bytes with
      what arrived. */
  lemma ReceivedPrefix(data: seq<byte>, n: nat, i: nat)
    requires i < |data| < n
    ensures Received(data, n)[i] == data[i]
  {
  }

  /** A reply shorter than the buffer leaves the missing bytes at zero. */
  lemma ReceivedShort(data: seq<byte>, n: nat, i: nat)
    requires |data| <= i < n
    ensures Received(data, n)[i] == 0
  {
  }
}
