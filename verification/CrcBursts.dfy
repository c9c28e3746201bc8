/** What the checksum is for: no burst of up to four damaged bytes goes unnoticed. */
module CrcBursts {
  import opened Crc32

  function ShiftIn(value: bv32): bv32 { value << 8 }

  /** The value fits in so many bytes. */
  predicate Below(value: bv32, count: nat) {
    if count == 0 then value == 0
    else if count == 1 then value < 0x100
    else if count == 2 then value < 0x1_0000
    else if count == 3 then value < 0x100_0000
    else true
  }

  lemma BitStepIsInjective(x: bv32, y: bv32)
    requires BitStep(x) == BitStep(y)
    ensures x == y
  {
  }

  lemma {:induction false} BitStepsAreInjective(x: bv32, y: bv32, count: nat)
    requires BitSteps(x, count) == BitSteps(y, count)
    ensures x == y
  {
    hide BitStep;
    if count > 0 {
      BitStepIsInjective(BitSteps(x, count - 1), BitSteps(y, count - 1));
      BitStepsAreInjective(x, y, count - 1);
    }
  }

  lemma ShiftInThenDrop(value: bv32, count: nat)
    requires count < 4 && Below(value, count)
    ensures LowByte(ShiftIn(value)) == 0 && DropByte(ShiftIn(value)) == value
  {
  }

  /** Before a byte step that ends small, the register held the same bits one byte higher. */
  lemma ByteStepUndone(before: bv32, count: nat)
    requires count < 4 && Below(BitSteps(before, 8), count)
    ensures before == ShiftIn(BitSteps(before, 8))
  {
    hide Below, BitSteps, ShiftIn, LowByte, DropByte;
    var after := BitSteps(before, 8);
    ShiftInThenDrop(after, count);
    EightShifts(ShiftIn(after));
    BitStepsAreInjective(before, ShiftIn(after), 8);
  }

  function Difference(left: seq<bv8>, right: seq<bv8>, k: nat): bv32
    requires k <= |left| == |right|
  {
    Xor(Register(left[..k]), Register(right[..k]))
  }

  lemma XorRegroups(a: bv32, b: bv32, c: bv32, d: bv32)
    ensures Xor(Xor(a, b), Xor(c, d)) == Xor(Xor(a, c), Xor(b, d))
  {
    hide Xor;
    XorMoves(b, c, d);
    XorMoves(a, b, Xor(c, d));
    XorMoves(a, c, Xor(b, d));
  }

  /** One byte step moves the difference of two registers on by the difference of the two bytes. */
  lemma DifferenceStep(left: seq<bv8>, right: seq<bv8>, k: nat)
    requires k < |left| == |right|
    ensures Difference(left, right, k + 1)
      == BitSteps(Xor(Difference(left, right, k), Xor(Widen(left[k]), Widen(right[k]))), 8)
  {
    hide Xor, Widen, BitSteps;
    assert left[..k + 1][..k] == left[..k] && right[..k + 1][..k] == right[..k];
    var x, y := Register(left[..k]), Register(right[..k]);
    BitStepsAreLinear(Xor(x, Widen(left[k])), Xor(y, Widen(right[k])), 8);
    XorRegroups(x, y, Widen(left[k]), Widen(right[k]));
  }

  lemma BytesFromShift(value: bv32, before: bv32, x: bv8, y: bv8, count: nat)
    requires count < 4 && Below(value, count) && Xor(before, Xor(Widen(x), Widen(y))) == ShiftIn(value)
    ensures Below(before, count + 1)
    ensures before == 0 ==> value == 0 && x == y
  {
  }

  /** Walking back from where the registers agree again, the difference gains at most a byte at each step. */
  lemma {:induction false} DifferenceBefore(left: seq<bv8>, right: seq<bv8>, k: nat, count: nat)
    requires k + count <= |left| == |right| && count <= 4 && Difference(left, right, k + count) == 0
    ensures Below(Difference(left, right, k), count)
    ensures Difference(left, right, k) == 0 ==> left[k..k + count] == right[k..k + count]
    decreases count
  {
    hide Difference, Below, ShiftIn, Xor, Widen, BitSteps;
    if count > 0 {
      DifferenceBefore(left, right, k + 1, count - 1);
      DifferenceStep(left, right, k);
      var after := Difference(left, right, k + 1);
      ByteStepUndone(Xor(Difference(left, right, k), Xor(Widen(left[k]), Widen(right[k]))), count - 1);
      BytesFromShift(after, Difference(left, right, k), left[k], right[k], count - 1);
      if Difference(left, right, k) == 0 {
        assert left[k..k + count] == [left[k]] + left[k + 1..k + count];
        assert right[k..k + count] == [right[k]] + right[k + 1..k + count];
      }
    } else {
      BelowNothing();
    }
  }

  lemma BelowNothing()
    ensures Below(0, 0)
  {
  }

  /** Registers that differ never meet again while the bytes agree. */
  lemma {:induction false} DifferenceLasts(left: seq<bv8>, right: seq<bv8>, k: nat)
    requires k <= |left| == |right| && left[k..] == right[k..] && Difference(left, right, |left|) == 0
    ensures Difference(left, right, k) == 0
    decreases |left| - k as int
  {
    hide Difference, Below, ShiftIn, Xor, Widen, BitSteps;
    if k < |left| {
      assert left[k] == left[k..][0] && right[k] == right[k..][0];
      assert left[k + 1..] == left[k..][1..] && right[k + 1..] == right[k..][1..];
      DifferenceLasts(left, right, k + 1);
      DifferenceStep(left, right, k);
      BelowNothing();
      ByteStepUndone(Xor(Difference(left, right, k), Xor(Widen(left[k]), Widen(right[k]))), 0);
      BytesFromShift(0, Difference(left, right, k), left[k], right[k], 0);
      SameBytesCancel(Difference(left, right, k), left[k]);
    }
  }

  lemma SameBytesCancel(before: bv32, byte: bv8)
    requires Xor(before, Xor(Widen(byte), Widen(byte))) == ShiftIn(0)
    ensures before == 0
  {
  }

  lemma XorVanishes(x: bv32, y: bv32)
    requires Xor(x, y) == 0
    ensures x == y
  {
    hide Xor;
    XorCancels(x, y);
    XorWithZero(x);
  }

  lemma XorWithZero(x: bv32)
    ensures Xor(x, 0) == x && Xor(x, x) == 0
  {
  }

  lemma EqualRegisters(x: bv32, y: bv32)
    ensures Xor(x, y) == 0 <==> x == y
    ensures Xor(x, ALL_ONES) == Xor(y, ALL_ONES) ==> x == y
  {
    hide Xor;
    XorWithZero(x);
    if Xor(x, y) == 0 {
      XorVanishes(x, y);
    }
    XorCommutes(x, ALL_ONES);
    XorCommutes(y, ALL_ONES);
    XorCancels(ALL_ONES, x);
    XorCancels(ALL_ONES, y);
  }

  /** Messages of one length that differ at most within four consecutive bytes, and share a checksum, are equal. */
  lemma BurstIsDetected(left: seq<bv8>, right: seq<bv8>, from: nat, count: nat)
    requires |left| == |right| && from + count <= |left| && count <= 4
    requires left[..from] == right[..from] && left[from + count..] == right[from + count..]
    requires Checksum(left) == Checksum(right)
    ensures left == right
  {
    hide Register, Xor, Below, BitSteps;
    assert left[..|left|] == left && right[..|right|] == right;
    EqualRegisters(Register(left), Register(right));
    DifferenceLasts(left, right, from + count);
    EqualRegisters(Register(left[..from]), Register(right[..from]));
    DifferenceBefore(left, right, from, count);
    assert left == left[..from] + left[from..from + count] + left[from + count..];
    assert right == right[..from] + right[from..from + count] + right[from + count..];
  }

  /** The polynomial comes up through the register when the low byte leaves it. */
  lemma PolynomialSteps()
    ensures BitStep(0x41) == 0xEDB88300
    ensures BitStep(0xEDB88300) == 0x76DC4180
    ensures BitStep(0x76DC4180) == 0x3B6E20C0
    ensures BitStep(0x3B6E20C0) == 0x1DB71060
    ensures BitStep(0x1DB71060) == 0xEDB8830
    ensures BitStep(0xEDB8830) == 0x76DC418
    ensures BitStep(0x76DC418) == 0x3B6E20C
    ensures BitStep(0x3B6E20C) == 0x1DB7106
  {
  }

  lemma PolynomialSurfaces()
    ensures BitSteps(0x41, 8) == 0x1DB7106
  {
    hide BitStep;
    PolynomialSteps();
    assert BitSteps(0x41, 1) == 0xEDB88300;
    assert BitSteps(0x41, 2) == 0x76DC4180;
    assert BitSteps(0x41, 3) == 0x3B6E20C0;
    assert BitSteps(0x41, 4) == 0x1DB71060;
    assert BitSteps(0x41, 5) == 0xEDB8830;
    assert BitSteps(0x41, 6) == 0x76DC418;
    assert BitSteps(0x41, 7) == 0x3B6E20C;
  }

  lemma PolynomialDrops()
    ensures Xor(0, Xor(Widen(0x41), Widen(0))) == 0x41
    ensures Xor(0x1DB7106, Xor(Widen(0x06), Widen(0))) == 0x1DB7100 && LowByte(0x1DB7100) == 0
    ensures DropByte(0x1DB7100) == 0x1DB71
    ensures Xor(0x1DB71, Xor(Widen(0x71), Widen(0))) == 0x1DB00 && LowByte(0x1DB00) == 0
    ensures DropByte(0x1DB00) == 0x1DB
    ensures Xor(0x1DB, Xor(Widen(0xDB), Widen(0))) == 0x100 && LowByte(0x100) == 0
    ensures DropByte(0x100) == 1
    ensures Xor(1, Xor(Widen(1), Widen(0))) == 0 && LowByte(0) == 0 && DropByte(0) == 0
  {
  }

  /** Five damaged bytes can hide: the polynomial itself, laid over zeros, leaves their checksum as it is. */
  lemma FiveBytesCanHide()
    ensures Checksum([0x41, 0x06, 0x71, 0xDB, 0x01]) == Checksum([0, 0, 0, 0, 0])
  {
    hide Xor, Widen, BitSteps, LowByte, DropByte, Register;
    var left: seq<bv8>, right: seq<bv8> := [0x41, 0x06, 0x71, 0xDB, 0x01], [0, 0, 0, 0, 0];
    PolynomialDrops();
    PolynomialSurfaces();
    EqualRegisters(Register(left[..0]), Register(right[..0]));
    assert left[..0] == right[..0];
    DifferenceStep(left, right, 0);
    DifferenceStep(left, right, 1);
    EightShifts(0x1DB7100);
    DifferenceStep(left, right, 2);
    EightShifts(0x1DB00);
    DifferenceStep(left, right, 3);
    EightShifts(0x100);
    DifferenceStep(left, right, 4);
    EightShifts(0);
    assert left[..5] == left && right[..5] == right;
    EqualRegisters(Register(left), Register(right));
  }
}
