/**
 * The CO2-mini wire frame: 8 bytes read from the hidraw node, of which only
 * the first five are interpreted.
 *
 *   byte 0    operation code (0x50 CO2, 0x42 temperature, 0x44 humidity, others passed through)
 *   bytes 1-2 big-endian 16-bit value
 *   byte 3    checksum: low byte of the sum of bytes 0..2
 *   byte 4    terminator, always 0x0D
 *   bytes 5-7 reserved, never read
 */
module Protocol {
  import opened Bits

  /** One element of `list(file.read(8))`: a Python int in 0..255. */
  type Byte = b: int | 0 <= b < 256

  const CO2METER_CO2: Byte := 0x50
  const CO2METER_TEMP: Byte := 0x42
  const CO2METER_HUM: Byte := 0x44
  const TERMINATOR: Byte := 0x0D

  /** The vendor key sent once as a feature report (after a leading zero byte). */
  const VENDOR_KEY: seq<Byte> := [0xC4, 0xC6, 0xC0, 0x92, 0x40, 0x23, 0xDC, 0x96]

  /** `n & 0xFF`, the checksum's low byte. */
  function LowByte(n: nat): (r: Byte)
    ensures r == n % 256
  {
    AndMask(n, 8);
    assert Pow2(8) == 256;
    BitAnd(n, 0xFF)
  }

  /** `hi << 8 | lo`, the big-endian 16-bit value. */
  function BigEndian16(hi: Byte, lo: Byte): (r: nat)
    ensures r == hi * 256 + lo
    ensures r < 0x1_0000
  {
    ShiftLeftIsMul(hi, 8);
    OrDisjoint(hi, lo, 8);
    assert Pow2(8) == 256;
    BitOr(ShiftLeft(hi, 8), lo)
  }

  /** What a single `read_data` call makes of the bytes it read. */
  datatype Decoded =
    | TooShort                              // `data[4]` raises IndexError
    | ChecksumError                         // terminator or checksum mismatch
    | Sample(operation: Byte, value: int)   // the dictionary update to perform

  /**
   * Acceptance condition stated arithmetically: at least five bytes, byte 4 is
   * the terminator, and byte 3 is the sum of bytes 0..2 modulo 256.
   */
  predicate Accepts(frame: seq<Byte>)
  {
    |frame| >= 5 && frame[4] == TERMINATOR && (frame[0] as int + frame[1] + frame[2]) % 256 == frame[3]
  }

  /** The checksum and value extraction of `read_data`, with the source's bitwise operators. */
  function Decode(frame: seq<Byte>): (r: Decoded)
    ensures r.TooShort? <==> |frame| < 5
    ensures r.Sample? <==> Accepts(frame)
    ensures r.Sample? ==> r.operation == frame[0] && r.value == frame[1] as int * 256 + frame[2]
    ensures r.Sample? ==> 0 <= r.value < 0x1_0000
  {
    if |frame| < 5 then TooShort
    else if frame[4] != TERMINATOR || LowByte(frame[0] as int + frame[1] + frame[2]) != frame[3] then ChecksumError
    else Sample(frame[0], BigEndian16(frame[1], frame[2]))
  }

  /**
   * The frame a sensor sends for `operation` and `value`, followed by the
   * reserved bytes `reserved`: the reference definition that Decode inverts.
   */
  function Encode(operation: Byte, value: int, reserved: seq<Byte>): (frame: seq<Byte>)
    requires 0 <= value < 0x1_0000
  {
    var hi, lo := value / 256, value % 256;
    [operation, hi, lo, (operation + hi + lo) % 256, TERMINATOR] + reserved
  }

  /** Every encoded sample decodes back to itself, whatever the reserved bytes hold. */
  lemma DecodeEncode(operation: Byte, value: int, reserved: seq<Byte>)
    requires 0 <= value < 0x1_0000
    ensures Decode(Encode(operation, value, reserved)) == Sample(operation, value)
  {
  }

  /** Conversely, every accepted frame is the encoding of what it decodes to. */
  lemma EncodeDecode(frame: seq<Byte>)
    requires Decode(frame).Sample?
    ensures frame == Encode(Decode(frame).operation, Decode(frame).value, frame[5..])
  {
  }

  /** Bytes 5..7 are never consulted: replacing them does not change the outcome. */
  lemma DecodeIgnoresReserved(frame: seq<Byte>, reserved: seq<Byte>)
    requires |frame| >= 5
    ensures Decode(frame[..5] + reserved) == Decode(frame)
  {
  }

  /** The two frames of the CO2 example: 0x0194 (404 ppm) with a good and a bad checksum. */
  lemma ExampleFrames()
    ensures Decode([0x50, 0x01, 0x94, 0xE5, 0x0D, 0, 0, 0]) == Sample(CO2METER_CO2, 404)
    ensures Decode([0x50, 0x01, 0x94, 0x95, 0x0D, 0, 0, 0]) == ChecksumError
  {
  }
}
