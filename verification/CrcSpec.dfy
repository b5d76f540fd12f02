/** What the CRC code computes: register steps, remainders, and the finished
    checksum, for every width of at least one byte and every polynomial. */
module CrcSpec {
  import opened Bits

  datatype Parameters = Parameters(
    polynomial: Word, initialValue: Word, finalXOR: Word,
    reflectInput: bool, reflectOutput: bool)
  {
    predicate Valid() {
      8 <= |polynomial| == |initialValue| == |finalXOR|
    }

    function Width(): nat {
      |polynomial|
    }

    predicate IsRegister(r: Word) {
      |r| == |polynomial|
    }
  }

  /** CRC-16/ARC, the header checksum. */
  function Crc16Arc(): (p: Parameters)
    ensures p.Valid() && p.Width() == 16
  {
    Parameters(Constant(0x8005, 16), Zeros(16), Zeros(16), true, true)
  }

  /** The CRC of section 8 of RFC 1952, the payload checksum. */
  function Crc32(): (p: Parameters)
    ensures p.Valid() && p.Width() == 32
  {
    Parameters(Constant(0x04C1_1DB7, 32), Constant(0xFFFF_FFFF, 32), Constant(0xFFFF_FFFF, 32), true, true)
  }

  /** One bit of the reflected loop; `q` is the polynomial already reflected. */
  function ReflectedStep(q: Word, r: Word): (s: Word)
    requires |r| == |q| > 0
    ensures |s| == |q|
  {
    if r[0] then Xor(ShiftRight(r), q) else ShiftRight(r)
  }

  /** One bit of the most-significant-bit-first loop. */
  function MsbStep(polynomial: Word, r: Word): (s: Word)
    requires |r| == |polynomial| > 0
    ensures |s| == |r|
  {
    if r[|r| - 1] then Xor(ShiftLeft(r), polynomial) else ShiftLeft(r)
  }

  function Step(p: Parameters, r: Word): (s: Word)
    requires p.Valid() && p.IsRegister(r)
    ensures p.IsRegister(s)
  {
    if p.reflectInput then ReflectedStep(Reverse(p.polynomial), r) else MsbStep(p.polynomial, r)
  }

  function Steps(p: Parameters, r: Word, n: nat): (s: Word)
    requires p.Valid() && p.IsRegister(r)
    ensures p.IsRegister(s)
    decreases n, p, r
  {
    if n == 0 then r else Steps(p, Step(p, r), n - 1)
  }

  /** A byte moved to the end of the register where the loop consumes bits. */
  function Place(p: Parameters, b: Byte): (w: Word)
    requires p.Valid()
    ensures p.IsRegister(w)
  {
    if p.reflectInput then ByteBits(b) + Zeros(p.Width() - 8) else Zeros(p.Width() - 8) + ByteBits(b)
  }

  function ByteStep(p: Parameters, r: Word, b: Byte): (s: Word)
    requires p.Valid() && p.IsRegister(r)
    ensures p.IsRegister(s)
  {
    Steps(p, Xor(r, Place(p, b)), 8)
  }

  function Remainder(p: Parameters, data: seq<Byte>, r: Word): (s: Word)
    requires p.Valid() && p.IsRegister(r)
    ensures p.IsRegister(s)
    decreases |data|, p, r
  {
    if data == [] then r else Remainder(p, data[1..], ByteStep(p, r, data[0]))
  }

  function Finalize(p: Parameters, r: Word): (crc: Word)
    requires p.Valid() && p.IsRegister(r)
    ensures p.IsRegister(crc)
  {
    Xor(if p.reflectInput != p.reflectOutput then Reverse(r) else r, p.finalXOR)
  }

  function UndoFinalize(p: Parameters, crc: Word): (r: Word)
    requires p.Valid() && p.IsRegister(crc)
    ensures p.IsRegister(r)
  {
    var x := Xor(crc, p.finalXOR);
    if p.reflectInput != p.reflectOutput then Reverse(x) else x
  }

  function Checksum(p: Parameters, data: seq<Byte>): (crc: Word)
    requires p.Valid()
    ensures p.IsRegister(crc)
  {
    Finalize(p, Remainder(p, data, p.initialValue))
  }

  /** The checksum continued from the checksum of earlier data. */
  function ChecksumFrom(p: Parameters, data: seq<Byte>, crc: Word): (r: Word)
    requires p.Valid() && p.IsRegister(crc)
    ensures p.IsRegister(r)
  {
    Finalize(p, Remainder(p, data, UndoFinalize(p, crc)))
  }
}
