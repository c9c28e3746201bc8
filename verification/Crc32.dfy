/** The archive checksum: the CRC-32 of section 8 of RFC 1952, one byte at a time through a table. */
module Crc32 {
  const POLYNOMIAL: bv32 := 0xEDB8_8320
  const ALL_ONES: bv32 := 0xFFFF_FFFF

  function Xor(x: bv32, y: bv32): bv32 { x ^ y }

  predicate LowBit(x: bv32) { x & 1 == 1 }

  function Half(x: bv32): bv32 { x >> 1 }

  function LowByte(x: bv32): bv32 { x & 0xFF }

  function HighBytes(x: bv32): bv32 { x & 0xFFFF_FF00 }

  function DropByte(x: bv32): bv32 { x >> 8 }

  function Widen(byte: bv8): bv32 { byte as bv32 }

  // ----- The definition, one bit at a time -----

  /** Dividing by the reflected polynomial: the bit that falls off decides whether it is subtracted. */
  function BitStep(value: bv32): bv32 {
    if LowBit(value) then Xor(POLYNOMIAL, Half(value)) else Half(value)
  }

  function BitSteps(value: bv32, count: nat): bv32 {
    if count == 0 then value else BitStep(BitSteps(value, count - 1))
  }

  /** The register after the message: every byte enters at the low end, then eight bit steps. */
  function Register(bytes: seq<bv8>): bv32 {
    if bytes == [] then ALL_ONES
    else BitSteps(Xor(Register(bytes[..|bytes| - 1]), Widen(bytes[|bytes| - 1])), 8)
  }

  function Checksum(bytes: seq<bv8>): bv32 {
    Xor(Register(bytes), ALL_ONES)
  }

  // ----- Bit steps are linear -----

  lemma HalfOfXor(x: bv32, y: bv32)
    ensures Half(Xor(x, y)) == Xor(Half(x), Half(y))
    ensures LowBit(Xor(x, y)) <==> LowBit(x) != LowBit(y)
  {
  }

  lemma XorAssociates(p: bv32, a: bv32, b: bv32)
    ensures Xor(p, Xor(a, b)) == Xor(Xor(p, a), b)
  {
  }

  lemma XorCommutes(a: bv32, b: bv32)
    ensures Xor(a, b) == Xor(b, a)
  {
  }

  lemma XorCancels(p: bv32, a: bv32)
    ensures Xor(p, Xor(p, a)) == a
  {
  }

  lemma XorMoves(p: bv32, a: bv32, b: bv32)
    ensures Xor(p, Xor(a, b)) == Xor(Xor(p, a), b)
    ensures Xor(p, Xor(a, b)) == Xor(a, Xor(p, b))
    ensures Xor(Xor(p, a), Xor(p, b)) == Xor(a, b)
  {
    hide Xor;
    XorAssociates(p, a, b);
    XorAssociates(a, p, b);
    XorCommutes(p, a);
    XorAssociates(a, p, Xor(p, b));
    XorCancels(p, b);
  }

  lemma BitStepIsLinear(x: bv32, y: bv32)
    ensures BitStep(Xor(x, y)) == Xor(BitStep(x), BitStep(y))
  {
    hide Xor, Half, LowBit;
    HalfOfXor(x, y);
    XorMoves(POLYNOMIAL, Half(x), Half(y));
  }

  lemma {:induction false} BitStepsAreLinear(x: bv32, y: bv32, count: nat)
    ensures BitSteps(Xor(x, y), count) == Xor(BitSteps(x, count), BitSteps(y, count))
  {
    hide BitStep, Xor;
    if count > 0 {
      BitStepsAreLinear(x, y, count - 1);
      BitStepIsLinear(BitSteps(x, count - 1), BitSteps(y, count - 1));
    }
  }

  /** While the low bits are clear, bit steps only shift. */
  lemma {:induction false} ClearBitsShift(value: bv32, count: nat)
    requires count <= 8 && LowByte(value) == 0
    ensures BitSteps(value, count) == Shifted(value, count)
  {
    hide Xor, Half, LowBit, LowByte;
    if count > 0 {
      ClearBitsShift(value, count - 1);
      ShiftsStayEven(value, count - 1);
    }
  }

  function Shifted(value: bv32, count: nat): bv32 {
    if count == 0 then value else Half(Shifted(value, count - 1))
  }

  lemma ShiftsStayEven(value: bv32, count: nat)
    requires count < 8 && LowByte(value) == 0
    ensures !LowBit(Shifted(value, count))
  {
    hide Half, LowBit, LowByte;
    UnrolledShifts(value);
    EvenShifts(value);
    assert count in [0, 1, 2, 3, 4, 5, 6, 7];
  }

  lemma UnrolledShifts(value: bv32)
    ensures Shifted(value, 0) == value
    ensures Shifted(value, 1) == Half(value)
    ensures Shifted(value, 2) == Half(Half(value))
    ensures Shifted(value, 3) == Half(Half(Half(value)))
    ensures Shifted(value, 4) == Half(Half(Half(Half(value))))
    ensures Shifted(value, 5) == Half(Half(Half(Half(Half(value)))))
    ensures Shifted(value, 6) == Half(Half(Half(Half(Half(Half(value))))))
    ensures Shifted(value, 7) == Half(Half(Half(Half(Half(Half(Half(value)))))))
    ensures Shifted(value, 8) == Half(Half(Half(Half(Half(Half(Half(Half(value))))))))
  {
    hide Half;
  }

  /** A word that is clear under an odd mask is even, and its half is clear under half the mask. */
  lemma HalfStaysClear(value: bv32, mask: bv32)
    requires value & mask == 0 && mask & 1 == 1
    ensures !LowBit(value) && Half(value) & (mask >> 1) == 0
  {
  }

  lemma EvenShifts(value: bv32)
    requires LowByte(value) == 0
    ensures !LowBit(value) && !LowBit(Half(value)) && !LowBit(Half(Half(value)))
    ensures !LowBit(Half(Half(Half(value))))
    ensures !LowBit(Half(Half(Half(Half(value)))))
    ensures !LowBit(Half(Half(Half(Half(Half(value))))))
    ensures !LowBit(Half(Half(Half(Half(Half(Half(value)))))))
    ensures !LowBit(Half(Half(Half(Half(Half(Half(Half(value))))))))
  {
    hide Half, LowBit;
    HalfStaysClear(value, 0xFF);
    HalfStaysClear(Half(value), 0x7F);
    HalfStaysClear(Half(Half(value)), 0x3F);
    HalfStaysClear(Half(Half(Half(value))), 0x1F);
    HalfStaysClear(Half(Half(Half(Half(value)))), 0xF);
    HalfStaysClear(Half(Half(Half(Half(Half(value))))), 0x7);
    HalfStaysClear(Half(Half(Half(Half(Half(Half(value)))))), 0x3);
    HalfStaysClear(Half(Half(Half(Half(Half(Half(Half(value))))))), 0x1);
  }

  lemma EightHalves(value: bv32)
    ensures Half(Half(Half(Half(Half(Half(Half(Half(value)))))))) == DropByte(value)
  {
  }

  lemma EightShifts(value: bv32)
    requires LowByte(value) == 0
    ensures BitSteps(value, 8) == DropByte(value)
  {
    hide BitSteps, Shifted, Half, LowByte, LowBit, DropByte;
    ClearBitsShift(value, 8);
    UnrolledShifts(value);
    EightHalves(value);
  }

  lemma Halves(value: bv32)
    ensures Xor(LowByte(value), HighBytes(value)) == value
    ensures LowByte(HighBytes(value)) == 0
    ensures DropByte(HighBytes(value)) == DropByte(value)
  {
  }

  /** Eight bit steps, seen byte-wise: a table value for the low byte, and the rest moved down. */
  lemma ByteStep(value: bv32)
    ensures BitSteps(value, 8) == Xor(BitSteps(LowByte(value), 8), DropByte(value))
  {
    hide BitSteps, Xor, LowByte, HighBytes, DropByte;
    Halves(value);
    BitStepsAreLinear(LowByte(value), HighBytes(value), 8);
    EightShifts(HighBytes(value));
  }

  lemma ByteEntersLow(register: bv32, byte: bv8)
    ensures DropByte(Xor(register, Widen(byte))) == DropByte(register)
  {
  }

  // ----- The table -----

  function LowIndex(value: bv32): bv8 { (value & 0xFF) as bv8 }

  /** The table position a register looks up: its low byte as a number. */
  function Index(value: bv32): (index: nat)
    ensures index < 256
  {
    LowIndex(value) as nat
  }

  function Widened(index: nat): bv32
    requires index < 256
  {
    Widen(index as bv8)
  }

  function TableValue(index: nat): bv32
    requires index < 256
  {
    BitSteps(Widened(index), 8)
  }

  lemma LowIndexWidens(value: bv32)
    ensures Widen(LowIndex(value)) == LowByte(value)
  {
  }

  lemma IndexIsLowByte(value: bv32)
    ensures Widened(Index(value)) == LowByte(value)
  {
    hide LowIndex, Widen, LowByte;
    LowIndexWidens(value);
  }

  method BuildTable() returns (table: array<bv32>)
    ensures fresh(table) && table.Length == 256
    ensures forall index | 0 <= index < 256 :: table[index] == TableValue(index)
  {
    hide Xor, Half, LowBit, Widened;
    table := new bv32[256];
    for index := 0 to 256
      invariant forall j | 0 <= j < index :: table[j] == TableValue(j)
    {
      var value := Widened(index);
      for bit := 0 to 8
        invariant value == BitSteps(Widened(index), bit)
      {
        value := if LowBit(value) then Xor(POLYNOMIAL, Half(value)) else Half(value);
      }
      table[index] := value;
    }
  }

  /** The table-driven loop computes the bit-at-a-time checksum of every byte string. */
  method ComputeCrc32(bytes: seq<bv8>, table: array<bv32>) returns (checksum: bv32)
    requires table.Length == 256 && forall index | 0 <= index < 256 :: table[index] == TableValue(index)
    ensures checksum == Checksum(bytes)
  {
    hide BitSteps, Xor, LowByte, DropByte, Widen, Index, Widened;
    var value := ALL_ONES;
    for i := 0 to |bytes|
      invariant value == Register(bytes[..i])
    {
      var mixed := Xor(value, Widen(bytes[i]));
      IndexIsLowByte(mixed);
      ByteStep(mixed);
      ByteEntersLow(value, bytes[i]);
      assert bytes[..i + 1][..i] == bytes[..i];
      value := Xor(table[Index(mixed)], DropByte(value));
    }
    assert bytes[..|bytes|] == bytes;
    checksum := Xor(value, ALL_ONES);
  }
}
