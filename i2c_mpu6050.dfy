/**
 * The I2C transport and the MPU6050 motion-sensor driver of i2c_sensor_read.c.
 *
 * The transport records the bus conditions and bytes of each transaction as
 * the comments on I2C_Write and I2C_Read describe them, and answers reads
 * from a script of bytes. The driver wakes the sensor with one register write
 * and reads one 14-byte block, from which it rebuilds six signed 16-bit
 * channels sent high byte first.
 */
module I2cMpu6050 {
  import opened Bytes

  /** A 7-bit target address (section 3.1.10 of the I2C-bus specification, UM10204). */
  type uint7 = x: int | 0 <= x < 0x80

  /** Two's-complement 16-bit value, as `int16_t`. */
  type int16 = x: int | -0x8000 <= x < 0x8000

  const MPU6050_ADDR: uint7 := 0x68

  // MPU6050 register map
  const PWR_MGMT_1: uint8 := 0x6B
  const ACCEL_XOUT_H: uint8 := 0x3B
  const GYRO_XOUT_H: uint8 := 0x43

  /** Bytes in one sample block: accelerometer, temperature and gyroscope, two bytes each. */
  const SAMPLE_SIZE: uint16 := 14

  /** One observable action on the I2C bus, as the master drives it. */
  datatype Event =
    | Start
    | RepeatedStart
    | Stop
    | Address(device: uint7, read: bool)
    | Send(b: uint8)
    | Receive(b: uint8)

  /**
   * The byte that carries a target address on the bus: the seven address bits
   * followed by the read/write bit, 1 for a read.
   */
  function AddressByte(device: uint7, read: bool): (b: uint8)
    ensures b / 2 == device
    ensures b % 2 == 1 <==> read
  {
    device * 2 + if read then 1 else 0
  }

  /** On the wire the MPU6050 is addressed as 0xD0 for a write and 0xD1 for a read. */
  lemma SensorAddressBytes()
    ensures AddressByte(MPU6050_ADDR, false) == 0xD0
    ensures AddressByte(MPU6050_ADDR, true) == 0xD1
  {
  }

  // ---------------------------------------------------------------------------
  // Transactions

  /** I2C_Write: Start, address with write intent, register, data, Stop. */
  function WriteFrame(device: uint7, register: uint8, data: uint8): seq<Event>
  {
    [Start, Address(device, false), Send(register), Send(data), Stop]
  }

  /** The bytes clocked in from the target, in order. */
  function Receives(bytes: seq<uint8>): (t: seq<Event>)
    ensures |t| == |bytes|
    ensures forall i :: 0 <= i < |t| ==> t[i] == Receive(bytes[i])
  {
    seq(|bytes|, i requires 0 <= i < |bytes| => Receive(bytes[i]))
  }

  /**
   * I2C_Read: Start, address with write intent, register, repeated Start,
   * address with read intent, the bytes read, Stop.
   */
  function ReadFrame(device: uint7, register: uint8, bytes: seq<uint8>): seq<Event>
  {
    [Start, Address(device, false), Send(register), RepeatedStart, Address(device, true)] + Receives(bytes) + [Stop]
  }

  /** A trace is one transaction: it opens with Start, closes with Stop, and has neither in between. */
  predicate OneTransaction(t: seq<Event>)
  {
    |t| >= 2 && t[0] == Start && t[|t| - 1] == Stop &&
    forall i :: 0 < i < |t| - 1 ==> t[i] != Start && t[i] != Stop
  }

  /** A register write is one transaction of five events; it addresses the target once, with write intent. */
  lemma WriteFrameShape(device: uint7, register: uint8, data: uint8)
    ensures OneTransaction(WriteFrame(device, register, data))
    ensures |WriteFrame(device, register, data)| == 5
    ensures multiset(WriteFrame(device, register, data))[Address(device, false)] == 1
    ensures RepeatedStart !in WriteFrame(device, register, data)
  {
  }

  /**
   * A register read of `bytes` is one transaction: the register is sent with
   * write intent, then after exactly one repeated Start the target is
   * addressed with read intent and the bytes are received in order.
   */
  lemma ReadFrameShape(device: uint7, register: uint8, bytes: seq<uint8>)
    ensures var t := ReadFrame(device, register, bytes);
      && OneTransaction(t)
      && |t| == |bytes| + 6
      && t[2] == Send(register) && t[3] == RepeatedStart && t[4] == Address(device, true)
      && multiset(t)[RepeatedStart] == 1
      && forall i :: 0 <= i < |bytes| ==> t[i + 5] == Receive(bytes[i])
  {
    var t := ReadFrame(device, register, bytes);
    var head := [Start, Address(device, false), Send(register), RepeatedStart, Address(device, true)];
    assert t == head + Receives(bytes) + [Stop];
    forall i | 0 < i < |t| - 1
      ensures t[i] != Start && t[i] != Stop
    {
      if i >= 5 {
        assert t[i] == Receives(bytes)[i - 5];
      }
    }
    assert RepeatedStart !in Receives(bytes);
    assert RepeatedStart !in multiset(Receives(bytes));
  }

  // ---------------------------------------------------------------------------
  // Transport

  /** I2C master, as seen by the driver. */
  class Bus {
    /** Every bus condition and byte, oldest first. */
    var trace: seq<Event>
    /** Bytes the target will send on the coming reads. */
    var responses: seq<uint8>

    constructor (script: seq<uint8>)
      ensures trace == [] && responses == script
    {
      trace := [];
      responses := script;
    }

    /** I2C_Write: write one byte to a register of the target. */
    method Write(device: uint7, register: uint8, data: uint8)
      modifies this
      ensures trace == old(trace) + WriteFrame(device, register, data)
      ensures responses == old(responses)
    {
      trace := trace + WriteFrame(device, register, data);
    }

    /**
     * I2C_Read: read `size` bytes starting at a register of the target into
     * `buffer`, leaving the rest of the buffer alone.
     */
    method Read(device: uint7, register: uint8, buffer: array<uint8>, size: uint16)
      requires size <= buffer.Length
      modifies this, buffer
      ensures buffer[..size] == Take(old(responses), size, 0)
      ensures buffer[size..] == old(buffer[size..])
      ensures trace == old(trace) + ReadFrame(device, register, buffer[..size])
      ensures responses == Drop(old(responses), size)
    {
      var head := [Start, Address(device, false), Send(register), RepeatedStart, Address(device, true)];
      trace := trace + head;
      ghost var script := responses;
      var i := 0;
      while i < size
        invariant i <= size
        invariant buffer[..i] == Take(script, i, 0)
        invariant buffer[i..] == old(buffer[i..])
        invariant responses == Drop(script, i)
        invariant trace == old(trace) + head + Receives(buffer[..i])
      {
        var b := At(responses, 0, 0);
        AtDrop(script, i, 0, 0);
        DropDrop(script, i, 1);
        buffer[i] := b;
        trace := trace + [Receive(b)];
        responses := Drop(responses, 1);
        assert buffer[..i + 1] == buffer[..i] + [b];
        i := i + 1;
      }
      trace := trace + [Stop];
    }
  }

  // ---------------------------------------------------------------------------
  // Sample decoding

  /**
   * `(int16_t)((hi << 8) | lo)`: the low byte fills the eight bits the shift
   * cleared, so the OR is a sum, and the cast reads the 16-bit pattern as a
   * two's-complement value. The value agrees with the pattern modulo 2^16 and
   * is negative exactly when the top bit of the high byte is set.
   */
  function Combine(hi: uint8, lo: uint8): (v: int16)
    ensures (v + 0x1_0000) % 0x1_0000 == hi * 0x100 + lo
    ensures v < 0 <==> hi >= 0x80
  {
    var raw := hi * 0x100 + lo;
    if raw < 0x8000 then raw else raw - 0x1_0000
  }

  /** The high and low byte of a 16-bit value's two's-complement pattern. */
  function Split(v: int16): (uint8, uint8)
  {
    var raw := if v < 0 then v + 0x1_0000 else v;
    (raw / 0x100, raw % 0x100)
  }

  /** Every int16 value comes from exactly one byte pair: combining its split gives it back... */
  lemma CombineSplit(v: int16)
    ensures Combine(Split(v).0, Split(v).1) == v
  {
  }

  /** ...and splitting a combined pair gives back the bytes. */
  lemma SplitCombine(hi: uint8, lo: uint8)
    ensures Split(Combine(hi, lo)) == (hi, lo)
  {
  }

  /** Worked decodings: 0x1234, the all-ones pattern, and the most negative value. */
  lemma CombineExamples()
    ensures Combine(0x12, 0x34) == 4660
    ensures Combine(0xFF, 0xFF) == -1
    ensures Combine(0x80, 0x00) == -32768
  {
  }

  /** Three accelerometer axes and three gyroscope axes, in the sensor's units. */
  datatype Sample = Sample(ax: int16, ay: int16, az: int16, gx: int16, gy: int16, gz: int16)

  /** The six channels in register order. */
  function Channels(s: Sample): seq<int16>
  {
    [s.ax, s.ay, s.az, s.gx, s.gy, s.gz]
  }

  /**
   * Where the high byte of channel `c` sits in the block read from
   * ACCEL_XOUT_H: the accelerometer pairs first, then the gyroscope pairs,
   * which start GYRO_XOUT_H - ACCEL_XOUT_H bytes in, past the temperature pair.
   */
  function ChannelOffset(c: nat): (offset: nat)
    requires c < 6
    ensures offset % 2 == 0 && offset + 1 < SAMPLE_SIZE
    ensures offset != 6
  {
    if c < 3 then 2 * c else (GYRO_XOUT_H - ACCEL_XOUT_H) + 2 * (c - 3)
  }

  /** The combination in MPU6050_Read_Data: six channels from fixed byte pairs of the block. */
  function Decode(block: seq<uint8>): (s: Sample)
    requires |block| == SAMPLE_SIZE
    ensures forall c :: 0 <= c < 6 ==>
      Channels(s)[c] == Combine(block[ChannelOffset(c)], block[ChannelOffset(c) + 1])
  {
    Sample(
      Combine(block[0], block[1]),
      Combine(block[2], block[3]),
      Combine(block[4], block[5]),
      Combine(block[8], block[9]),
      Combine(block[10], block[11]),
      Combine(block[12], block[13]))
  }

  /** The block a sensor sends for sample `s` and a temperature pair. */
  function Encode(s: Sample, temperature: (uint8, uint8)): (block: seq<uint8>)
    ensures |block| == SAMPLE_SIZE
  {
    [Split(s.ax).0, Split(s.ax).1, Split(s.ay).0, Split(s.ay).1, Split(s.az).0, Split(s.az).1,
     temperature.0, temperature.1,
     Split(s.gx).0, Split(s.gx).1, Split(s.gy).0, Split(s.gy).1, Split(s.gz).0, Split(s.gz).1]
  }

  /** Decoding recovers every channel the sensor sent. */
  lemma DecodeEncode(s: Sample, temperature: (uint8, uint8))
    ensures Decode(Encode(s, temperature)) == s
  {
    CombineSplit(s.ax);
    CombineSplit(s.ay);
    CombineSplit(s.az);
    CombineSplit(s.gx);
    CombineSplit(s.gy);
    CombineSplit(s.gz);
  }

  /** Decoding loses nothing but the temperature pair: re-encoding with it rebuilds the block. */
  lemma EncodeDecode(block: seq<uint8>)
    requires |block| == SAMPLE_SIZE
    ensures Encode(Decode(block), (block[6], block[7])) == block
  {
    SplitCombine(block[0], block[1]);
    SplitCombine(block[2], block[3]);
    SplitCombine(block[4], block[5]);
    SplitCombine(block[8], block[9]);
    SplitCombine(block[10], block[11]);
    SplitCombine(block[12], block[13]);
  }

  /** Bytes 6 and 7, the temperature pair, never affect the decoded sample. */
  lemma TemperatureIgnored(a: seq<uint8>, b: seq<uint8>)
    requires |a| == SAMPLE_SIZE && |b| == SAMPLE_SIZE
    requires forall i :: 0 <= i < SAMPLE_SIZE && i != 6 && i != 7 ==> a[i] == b[i]
    ensures Decode(a) == Decode(b)
  {
  }

  /**
   * The register map agrees with the byte offsets used: the gyroscope block
   * starts 8 bytes after the accelerometer block, and the sensor's address is
   * a valid, non-reserved 7-bit address.
   */
  lemma RegisterMapConsistent()
    ensures GYRO_XOUT_H - ACCEL_XOUT_H == 8 == ChannelOffset(3)
    ensures 0 < MPU6050_ADDR < 0x80
  {
  }

  // ---------------------------------------------------------------------------
  // Driver operations

  /** MPU6050_Init: one register write, 0 to PWR_MGMT_1, which wakes the sensor. */
  method Init(bus: Bus)
    modifies bus
    ensures bus.trace == old(bus.trace) + WriteFrame(MPU6050_ADDR, PWR_MGMT_1, 0x00)
    ensures bus.responses == old(bus.responses)
  {
    bus.Write(MPU6050_ADDR, PWR_MGMT_1, 0x00);
  }

  /**
   * MPU6050_Read_Data: read the 14-byte block starting at ACCEL_XOUT_H in one
   * transaction and decode it into the six channels.
   */
  method ReadData(bus: Bus) returns (s: Sample)
    modifies bus
    ensures var block := Take(old(bus.responses), SAMPLE_SIZE, 0);
      && s == Decode(block)
      && bus.trace == old(bus.trace) + ReadFrame(MPU6050_ADDR, ACCEL_XOUT_H, block)
      && bus.responses == Drop(old(bus.responses), SAMPLE_SIZE)
  {
    var data := new uint8[SAMPLE_SIZE];
    bus.Read(MPU6050_ADDR, ACCEL_XOUT_H, data, SAMPLE_SIZE);
    assert data[..] == data[..SAMPLE_SIZE];
    s := Decode(data[..]);
  }
}
