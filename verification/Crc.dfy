/** The CRC code itself: loops over bytes and bits, and the lookup table. */
module Crc {
  import opened Bits
  import opened CrcSpec
  import opened CrcLaws

  method Reflect(original: Word, numBits: nat) returns (reversedValue: Word)
    requires numBits <= |original|
    ensures reversedValue == Reverse(original[..numBits]) + Zeros(|original| - numBits)
  {
    var value, width := original, |original|;
    reversedValue := Zeros(width);
    for i := 0 to numBits
      invariant |value| == |reversedValue| == width
      invariant value == original[i..] + Zeros(i)
      invariant reversedValue == Reverse(original[..i]) + Zeros(width - i)
    {
      ReverseLast(original[..i + 1]);
      assert original[..i + 1][..i] == original[..i];
      reversedValue := ShiftLeft(reversedValue)[0 := value[0]];
      value := ShiftRight(value);
    }
  }

  method ReflectAll(value: Word) returns (reversedValue: Word)
    ensures reversedValue == Reverse(value)
  {
    reversedValue := Reflect(value, |value|);
    assert value[..|value|] == value;
  }

  method FinalizeRemainder(p: Parameters, remainder: Word) returns (crc: Word)
    requires p.Valid() && p.IsRegister(remainder)
    ensures crc == Finalize(p, remainder)
  {
    crc := remainder;
    if p.reflectInput != p.reflectOutput {
      crc := ReflectAll(crc);
    }
    crc := Xor(crc, p.finalXOR);
  }

  method UndoFinalizeRemainder(p: Parameters, crc: Word) returns (remainder: Word)
    requires p.Valid() && p.IsRegister(crc)
    ensures remainder == UndoFinalize(p, crc) && Finalize(p, remainder) == crc
  {
    FinalizeInverse(p, crc);
    remainder := Xor(crc, p.finalXOR);
    if p.reflectInput != p.reflectOutput {
      remainder := ReflectAll(remainder);
    }
  }

  lemma {:induction false} RemainderAt(p: Parameters, data: seq<Byte>, i: nat, r: Word)
    requires p.Valid() && p.IsRegister(r) && i < |data|
    ensures Remainder(p, data[i..], r) == Remainder(p, data[i + 1..], ByteStep(p, r, data[i]))
  {
  }

  /** One byte, bit by bit, least significant bit first. */
  method ReflectedByte(p: Parameters, start: Word, byte: Byte, polynomial: Word) returns (remainder: Word)
    requires p.Valid() && p.IsRegister(start) && p.reflectInput && polynomial == Reverse(p.polynomial)
    ensures remainder == ByteStep(p, start, byte)
  {
    hide Xor, ReflectedStep, MsbStep, ByteBits;
    remainder := Xor(start, ByteBits(byte) + Zeros(p.Width() - 8));
    for i := 0 to 8
      invariant p.IsRegister(remainder) && Steps(p, remainder, 8 - i) == ByteStep(p, start, byte)
    {
      remainder := ReflectedStep(polynomial, remainder);
    }
  }

  method ReflectedRemainder(data: seq<Byte>, p: Parameters, start: Word) returns (remainder: Word)
    requires p.Valid() && p.IsRegister(start) && p.reflectInput
    ensures remainder == Remainder(p, data, start)
  {
    remainder := start;
    var polynomial := ReflectAll(p.polynomial);
    var current := 0;
    while current < |data|
      invariant 0 <= current <= |data| && p.IsRegister(remainder)
      invariant Remainder(p, data[current..], remainder) == Remainder(p, data, start)
    {
      RemainderAt(p, data, current, remainder);
      remainder := ReflectedByte(p, remainder, data[current], polynomial);
      current := current + 1;
    }
  }

  /** One byte, bit by bit, most significant bit first. */
  method MsbByte(p: Parameters, start: Word, byte: Byte) returns (remainder: Word)
    requires p.Valid() && p.IsRegister(start) && !p.reflectInput
    ensures remainder == ByteStep(p, start, byte)
  {
    hide Xor, ReflectedStep, MsbStep, ByteBits;
    remainder := Xor(start, Zeros(p.Width() - 8) + ByteBits(byte));
    for i := 0 to 8
      invariant p.IsRegister(remainder) && Steps(p, remainder, 8 - i) == ByteStep(p, start, byte)
    {
      remainder := MsbStep(p.polynomial, remainder);
    }
  }

  method MsbRemainder(data: seq<Byte>, p: Parameters, start: Word) returns (remainder: Word)
    requires p.Valid() && p.IsRegister(start) && !p.reflectInput
    ensures remainder == Remainder(p, data, start)
  {
    remainder := start;
    var current := 0;
    while current < |data|
      invariant 0 <= current <= |data| && p.IsRegister(remainder)
      invariant Remainder(p, data[current..], remainder) == Remainder(p, data, start)
    {
      RemainderAt(p, data, current, remainder);
      remainder := MsbByte(p, remainder, data[current]);
      current := current + 1;
    }
  }

  method CalculateRemainder(data: seq<Byte>, p: Parameters, start: Word) returns (remainder: Word)
    requires p.Valid() && p.IsRegister(start)
    ensures remainder == Remainder(p, data, start)
  {
    if p.reflectInput {
      remainder := ReflectedRemainder(data, p, start);
    } else {
      remainder := MsbRemainder(data, p, start);
    }
  }

  /** The 256-entry lookup table for one parameter set. */
  class Table {
    const parameters: Parameters
    const table: array<Word>

    ghost predicate Valid()
      reads this, table
    {
      parameters.Valid() && table.Length == 256 && IsTable(parameters, table[..])
    }

    constructor (p: Parameters)
      requires p.Valid()
      ensures Valid() && parameters == p && fresh(table)
    {
      parameters := p;
      table := new Word[256];
      new;
      InitTable();
    }

    method InitTable()
      requires parameters.Valid() && table.Length == 256
      modifies table
      ensures Valid()
    {
      hide Remainder;
      var byte: Byte, more := 0, true;
      while more
        invariant more ==> forall i: Byte {:trigger table[i as int]} :: i < byte ==>
          table[i as int] == Remainder(parameters, [i], Zeros(parameters.Width()))
        invariant !more ==> forall i: Byte {:trigger table[i as int]} ::
          table[i as int] == Remainder(parameters, [i], Zeros(parameters.Width()))
        decreases if more then 256 - byte as int else 0
      {
        var crc := CalculateRemainder([byte], parameters, Zeros(parameters.Width()));
        table[byte as int] := crc;
        byte := if byte == 255 then 0 else byte + 1;
        more := byte != 0;
      }
    }
  }

  /** Byte by byte, through the table; it computes what the bit loop computes. */
  method CalculateTableRemainder(data: seq<Byte>, lookupTable: Table, start: Word) returns (remainder: Word)
    requires lookupTable.Valid() && lookupTable.parameters.IsRegister(start)
    ensures remainder == Remainder(lookupTable.parameters, data, start)
  {
    var p, t := lookupTable.parameters, lookupTable.table;
    remainder := start;
    var current := 0;
    while current < |data|
      invariant 0 <= current <= |data| && p.IsRegister(remainder)
      invariant Remainder(p, data[current..], remainder) == Remainder(p, data, start)
    {
      TableStepCorrect(p, t[..], remainder, data[current]);
      RemainderAt(p, data, current, remainder);
      var byte := data[current];
      if p.reflectInput {
        var index := ByteOf(Xor(remainder[..8], ByteBits(byte)));
        remainder := Xor(remainder[8..] + Zeros(8), t[index as int]);
      } else {
        var shift := p.Width() - 8;
        var index := ByteOf(Xor(remainder[shift..], ByteBits(byte)));
        remainder := Xor(Zeros(8) + remainder[..shift], t[index as int]);
      }
      current := current + 1;
    }
  }

  method Calculate(data: seq<Byte>, p: Parameters) returns (crc: Word)
    requires p.Valid()
    ensures crc == Checksum(p, data)
  {
    var remainder := CalculateRemainder(data, p, p.initialValue);
    crc := FinalizeRemainder(p, remainder);
  }

  /** Continues a checksum; `before` is the data the earlier call covered. */
  method CalculateMore(data: seq<Byte>, p: Parameters, crc: Word, ghost before: seq<Byte>) returns (total: Word)
    requires p.Valid() && p.IsRegister(crc)
    ensures total == ChecksumFrom(p, data, crc)
    ensures crc == Checksum(p, before) ==> total == Checksum(p, before + data)
  {
    var remainder := UndoFinalizeRemainder(p, crc);
    remainder := CalculateRemainder(data, p, remainder);
    total := FinalizeRemainder(p, remainder);
    MultiPart(p, before, data);
  }

  method CalculateByTable(data: seq<Byte>, lookupTable: Table) returns (crc: Word)
    requires lookupTable.Valid()
    ensures crc == Checksum(lookupTable.parameters, data)
  {
    var p := lookupTable.parameters;
    var remainder := CalculateTableRemainder(data, lookupTable, p.initialValue);
    crc := FinalizeRemainder(p, remainder);
  }

  method CalculateMoreByTable(data: seq<Byte>, lookupTable: Table, crc: Word, ghost before: seq<Byte>)
    returns (total: Word)
    requires lookupTable.Valid() && lookupTable.parameters.IsRegister(crc)
    ensures total == ChecksumFrom(lookupTable.parameters, data, crc)
    ensures crc == Checksum(lookupTable.parameters, before) ==>
      total == Checksum(lookupTable.parameters, before + data)
  {
    var p := lookupTable.parameters;
    var remainder := UndoFinalizeRemainder(p, crc);
    remainder := CalculateTableRemainder(data, lookupTable, remainder);
    total := FinalizeRemainder(p, remainder);
    MultiPart(p, before, data);
  }
}
