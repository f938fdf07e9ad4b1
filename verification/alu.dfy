/** The operation table of DCPU16.cs (`set` through `ifb`), on operand values.

    Each operation is written with the C# operators of its source line, through the
    helpers of `Words`; the lemmas below state what each computes in plain arithmetic.
    Where this implementation departs from the DCPU-16 1.1 architecture (DIV, MOD, SHR
    and IFB), the lemmas state the behaviour of the code. */
module Alu {
  import opened Words
  import opened Instruction

  /** What an operation does once both operand values are known. */
  datatype Effect =
    | WriteDest(dest: Word)               // `a = ...`
    | WriteDestAndO(dest: Word, o: Word)  // `a = ...; machine.o = ...`, in that order
    | SetSkip(skip: bool)                 // `machine.skip = ...`
    | DivideByZero                        // `uint` division by zero throws

  /** Every operation that reads its destination, except DIV, reads it before it forces the
      source operand; DIV forces the source first, in `if (b.Value == 0)`. SET never reads
      its destination, so the order is immaterial to it. */
  predicate ReadsDestFirst(op: BasicOp)
  {
    op != Div
  }

  /** The handler of a primary opcode applied to the destination value `a` and the source value `b`. */
  function Execute(op: BasicOp, a: Word, b: Word): (r: Effect)
    ensures r.WriteDest? <==> op.Set? || op.And? || op.Or? || op.Xor?
    ensures r.SetSkip? <==> op.Ife? || op.Ifn? || op.Ifg? || op.Ifb?
    ensures r.DivideByZero? <==> op == Mod && b == 0
  {
    match op
    case Set => WriteDest(b)
    case Add => AddEffect(a, b)
    case Sub => SubEffect(a, b)
    case Mul => MulEffect(a, b)
    case Div => DivEffect(a, b)
    case Mod => ModEffect(a, b)
    case Shl => ShlEffect(a, b)
    case Shr => ShrEffect(a, b)
    case And => WriteDest(BitAnd(a, b))
    case Or => WriteDest(BitOr(a, b))
    case Xor => WriteDest(BitXor(a, b))
    case Ife => SetSkip(!(a == b))
    case Ifn => SetSkip(!(a != b))
    case Ifg => SetSkip(!(a > b))
    case Ifb => SetSkip(!(BitAnd(a, b) == 0))
  }

  // The arithmetic handlers, one C# expression each.

  function AddEffect(a: Word, b: Word): Effect
  {
    var c := ToUInt(a + b);
    WriteDestAndO(ToUShort(Low16(c)), ToUShort(ShrUInt(c, 16)))
  }

  function SubEffect(a: Word, b: Word): Effect
  {
    var c := a - b;
    WriteDestAndO(ToUShort(Low16(c)), ToUShort(ShrInt(c, 16)))
  }

  function MulEffect(a: Word, b: Word): Effect
  {
    var c := ToUInt(ToInt(a * b));
    WriteDestAndO(ToUShort(Low16(c)), ToUShort(ShrUInt(c, 16)))
  }

  function DivEffect(a: Word, b: Word): Effect
  {
    if b == 0 then WriteDestAndO(0, 0)
    else
      var c := ToUInt(ShlInt(a, 16));
      WriteDestAndO(ToUShort(ShrInt(a / b, 16)), ToUShort(Low16(c / b)))
  }

  function ModEffect(a: Word, b: Word): Effect
  {
    var c := ToUInt(ShlInt(a, 16));
    if b == 0 then DivideByZero
    else
      FloorDivBound(c, b);
      WriteDestAndO(ToUShort(ShrUInt(c / b, 16)), ToUShort(Low16(c / b)))
  }

  function ShlEffect(a: Word, b: Word): Effect
  {
    var c := ToUInt(ShlInt(a, b));
    WriteDestAndO(ToUShort(Low16(c)), ToUShort(ShrUInt(c, 16)))
  }

  function ShrEffect(a: Word, b: Word): Effect
  {
    var c := ToUInt(ShrInt(ShlInt(a, 16), b));
    WriteDestAndO(ToUShort(ShrUInt(c, 16)), ToUShort(Low16(c)))
  }

  // ---------------------------------------------------------------------------
  // What the operations compute.

  /** ADD: the sum modulo 2^16, with the carry in `O`. */
  lemma AddMeaning(a: Word, b: Word)
    ensures Execute(Add, a, b) == WriteDestAndO((a + b) % 0x10000, if a + b >= 0x10000 then 1 else 0)
  {
    var c := a + b;
    SmallUInt(c);
    assert AddEffect(a, b) == WriteDestAndO(ToUShort(Low16(c)), ToUShort(ShrUInt(c, 16)));
    HighWord(c);
    LowWord(c);
    assert c / 0x10000 == if c >= 0x10000 then 1 else 0;
  }

  /** SUB: the difference modulo 2^16, with `O` all ones on a borrow. */
  lemma SubMeaning(a: Word, b: Word)
    ensures Execute(Sub, a, b) == WriteDestAndO((a - b) % 0x10000, if a < b then 0xffff else 0)
  {
    Pow2Sixteen();
  }

  /** MUL: the low word of the 32-bit product, with the high word in `O`. The `int`
      product of two words can exceed `int.MaxValue`; its wrap is undone by the `uint` cast. */
  lemma MulMeaning(a: Word, b: Word)
    ensures Execute(Mul, a, b).WriteDestAndO?
    ensures Execute(Mul, a, b).dest == (a * b) % 0x10000
    ensures Execute(Mul, a, b).o == (a * b) / 0x10000
  {
    var p := a * b;
    ProductOfWords(a, b);
    UIntOfInt(p);
    var c := ToUInt(ToInt(p));
    assert c == p;
    assert Execute(Mul, a, b) == WriteDestAndO(ToUShort(Low16(c)), ToUShort(ShrUInt(c, 16)));
    HighWord(c);
    LowWord(c);
  }

  /** The low word of any integer, `(ushort)(c & 0xffff)`. */
  lemma LowWord(c: int)
    ensures ToUShort(Low16(c)) == c % 0x10000
  {
  }

  /** The high word of a `uint`, `c >> 16`, fits a word unchanged by the `(ushort)` cast. */
  lemma HighWord(c: UInt32)
    ensures ShrUInt(c, 16) == c / 0x10000
    ensures ToUShort(ShrUInt(c, 16)) == c / 0x10000
  {
    Pow2Sixteen();
    assert ShrUInt(c, 16) == c / 0x10000;
    assert c / 0x10000 < 0x10000;
  }

  /** `a << 16` on `int`, cast to `uint`, is exactly `a * 2^16`. */
  lemma ShiftedWord(a: Word)
    ensures ToUInt(ShlInt(a, 16)) == a * 0x10000
  {
    Pow2Sixteen();
    UIntOfInt(a * 0x10000);
  }

  /** DIV as written: dividing by zero gives 0 and `O` = 0; otherwise `O` holds the
      fractional bits of `a / b` but the destination, `(a / b) >> 16`, is always 0. */
  lemma DivAsWritten(a: Word, b: Word)
    ensures b == 0 ==> Execute(Div, a, b) == WriteDestAndO(0, 0)
    ensures b != 0 ==> Execute(Div, a, b).WriteDestAndO? && Execute(Div, a, b).dest == 0
    ensures b != 0 ==> Execute(Div, a, b).o == a * 0x10000 / b % 0x10000
  {
    if b != 0 {
      var c := ToUInt(ShlInt(a, 16));
      ShiftedWord(a);
      var q := a / b;
      FloorDivBound(a, b);
      SmallShift(q);
      LowWord(c / b);
      assert DivEffect(a, b) == WriteDestAndO(ToUShort(ShrInt(q, 16)), ToUShort(Low16(c / b)));
    }
  }

  /** A word shifted right by sixteen places is 0. */
  lemma SmallShift(q: Word)
    ensures ShrInt(q, 16) == 0
  {
    Pow2Sixteen();
    assert ShrInt(q, 16) == q / 0x10000;
  }

  /** MOD as written: it computes the quotient `a / b`, not the remainder, with the
      fractional bits in `O`; a zero divisor throws. */
  lemma ModAsWritten(a: Word, b: Word)
    ensures b == 0 <==> Execute(Mod, a, b) == DivideByZero
    ensures b != 0 ==> Execute(Mod, a, b).WriteDestAndO? && Execute(Mod, a, b).dest == a / b
    ensures b != 0 ==> Execute(Mod, a, b).o == a * 0x10000 / b % 0x10000
  {
    if b != 0 {
      var c := ToUInt(ShlInt(a, 16));
      ShiftedWord(a);
      assert c == a * 0x10000;
      FloorDivBound(c, b);
      var q := c / b;
      assert ModEffect(a, b) == WriteDestAndO(ToUShort(ShrUInt(q, 16)), ToUShort(Low16(q)));
      HighWord(q);
      LowWord(q);
      ScaledQuotient(a, b);
    }
  }

  /** SHL: the count is taken modulo 32; the destination gets the low word of the shifted
      value and `O` the next sixteen bits of its low 32 bits. */
  lemma ShlMeaning(a: Word, b: Word)
    ensures Execute(Shl, a, b).WriteDestAndO?
    ensures Execute(Shl, a, b).dest == a * Pow2(b % 32) % 0x10000
    ensures Execute(Shl, a, b).o == a * Pow2(b % 32) % 0x1_0000_0000 / 0x10000
  {
    var p := a * Pow2(b % 32);
    var c := ToUInt(ShlInt(a, b));
    assert Execute(Shl, a, b) == WriteDestAndO(ToUShort(Low16(c)), ToUShort(ShrUInt(c, 16)));
    UIntOfWrapped(p);
    assert c == p % 0x1_0000_0000;
    HighWord(c);
    LowWord(c);
    Low16OfUInt(p);
  }

  /** SHR of a word below 0x8000: a logical shift by the count modulo 32, with the bits
      shifted out in `O`. */
  lemma ShrLogical(a: Word, b: Word)
    requires a < 0x8000
    ensures Execute(Shr, a, b).WriteDestAndO?
    ensures Execute(Shr, a, b).dest == a / Pow2(b % 32)
    ensures Execute(Shr, a, b).o == a * 0x10000 / Pow2(b % 32) % 0x10000
  {
    var c := ShiftedRight(a, b);
    HighWord(c);
    LowWord(c);
    ScaledQuotient(a, Pow2(b % 32));
  }

  /** `(uint)((a << 16) >> b)` for a word below 0x8000, where `a << 16` is a non-negative `int`. */
  lemma ShiftedRight(a: Word, b: Word) returns (c: UInt32)
    requires a < 0x8000
    ensures c == ToUInt(ShrInt(ShlInt(a, 16), b))
    ensures c == a * 0x10000 / Pow2(b % 32)
  {
    var q := Pow2(b % 32);
    var x := a * 0x10000;
    ShiftedSmall(a);
    FloorDivBound(x, q);
    c := x / q;
    assert ShrInt(x, b) == c;
    SmallUInt(c);
  }

  /** `a << 16` on `int` for a word below 0x8000 does not reach the sign bit. */
  lemma ShiftedSmall(a: Word)
    requires a < 0x8000
    ensures ShlInt(a, 16) == a * 0x10000
  {
    Pow2Sixteen();
    assert ToInt(a * 0x10000) == a * 0x10000;
  }

  lemma SmallUInt(c: int)
    requires 0 <= c < 0x1_0000_0000
    ensures ToUInt(c) == c
  {
  }

  /** SHR of a word at or above 0x8000 by up to sixteen places: `a << 16` is a negative
      `int`, so the shift is arithmetic and the vacated high bits of the destination are
      filled with ones (the top `s` bits, worth `2^16 - 2^(16-s)`). */
  lemma ShrSignExtends(a: Word, b: Word)
    requires a >= 0x8000 && b % 32 <= 16
    ensures Execute(Shr, a, b).WriteDestAndO?
    ensures Execute(Shr, a, b).dest == a / Pow2(b % 32) + 0x10000 - Pow2(16 - b % 32)
    ensures Execute(Shr, a, b).o == a * Pow2(16 - b % 32) % 0x10000
  {
    var s := b % 32;
    var q := Pow2(16 - s);
    var c := SignedShiftedUInt(a, b);
    HighWord(c);
    LowWord(c);
    NegativeQuotient(a, Pow2(s), q);
    NegativeRemainder(a, q);
  }

  /** SHR of a word at or above 0x8000 by seventeen to thirty-one places: the whole word
      has been shifted out of the destination, which is all ones; `O` holds the word shifted
      right by `s - 16` places, its top `s - 16` bits filled with ones. */
  lemma ShrSignFills(a: Word, b: Word)
    requires a >= 0x8000 && b % 32 > 16
    ensures Execute(Shr, a, b).WriteDestAndO?
    ensures Execute(Shr, a, b).dest == 0xffff
    ensures Execute(Shr, a, b).o == a / Pow2(b % 32 - 16) + 0x10000 - Pow2(32 - b % 32)
  {
    var y := FarShifted(a, b);
    UIntOfNegative(y);
    var c := ToUInt(y);
    assert ShrEffect(a, b) == WriteDestAndO(ToUShort(ShrUInt(c, 16)), ToUShort(Low16(c)));
    HighWord(c);
    LowWord(c);
    DivModUnique(c, 0x10000, 0xffff, y + 0x10000);
  }

  /** `(a << 16) >> b` for a word at or above 0x8000 and a count `s` of seventeen to
      thirty-one: the floor of `(a - 2^16) / 2^(s-16)`, a negative number above `-2^16`. */
  lemma FarShifted(a: Word, b: Word) returns (y: Int32)
    requires a >= 0x8000 && b % 32 > 16
    ensures y == ShrInt(ShlInt(a, 16), b)
    ensures y == a / Pow2(b % 32 - 16) - Pow2(32 - b % 32)
    ensures -0x10000 <= y < 0
  {
    var s := b % 32;
    var p := Pow2(s - 16);
    var q := Pow2(32 - s);
    Pow2Sixteen();
    Pow2Add(16, s - 16);
    Pow2Add(s - 16, 32 - s);
    var x := (a - 0x10000) * 0x10000;
    assert ShlInt(a, 16) == x;
    y := ScaledFloor(a, p, q);
  }

  /** `(a - 2^16) * 2^16` divided, rounding down, by `2^16 * p`, where `p * q == 2^16`. */
  lemma ScaledFloor(a: Word, p: nat, q: nat) returns (y: int)
    requires p > 0 && p * q == 0x10000
    ensures y == (a - 0x10000) * 0x10000 / (0x10000 * p)
    ensures y == a / p - q && -0x10000 <= y < 0
  {
    var t := a / p;
    var r := a % p;
    assert a == t * p + r;
    if t >= q {
      MulMono(q, t, p);
    }
    MulMono(1, p, q);
    y := t - q;
    MulMono(r, p - 1, 0x10000);
    DivModUnique((a - 0x10000) * 0x10000, 0x10000 * p, y, r * 0x10000) by {
      assert y * (0x10000 * p) == 0x10000 * (t * p) - 0x10000 * (p * q);
    }
  }

  /** `(uint)((a << 16) >> b)` for a word at or above 0x8000 and a count of at most sixteen. */
  lemma SignedShiftedUInt(a: Word, b: Word) returns (c: UInt32)
    requires a >= 0x8000 && b % 32 <= 16
    ensures c == ToUInt(ShrInt(ShlInt(a, 16), b))
    ensures c == (a - 0x10000) * Pow2(16 - b % 32) + 0x1_0000_0000
    ensures Pow2(b % 32) * Pow2(16 - b % 32) == 0x10000
  {
    var y := SignedShifted(a, b);
    UIntOfNegative(y);
    c := ToUInt(y);
  }

  /** The low word of `(a - 2^16) * q + 2^32` is the low word of `a * q`. */
  lemma NegativeRemainder(a: Word, q: nat)
    ensures ((a - 0x10000) * q + 0x1_0000_0000) % 0x10000 == a * q % 0x10000
  {
    assert (a - 0x10000) * q == a * q - 0x10000 * q;
    assert (a - 0x10000) * q + 0x1_0000_0000 == a * q + (0x10000 - q) * 0x10000;
    AddWords(a * q, 0x10000 - q);
  }

  /** Adding whole words leaves the low word alone. */
  lemma AddWords(x: int, k: int)
    ensures (x + k * 0x10000) % 0x10000 == x % 0x10000
  {
    DivModUnique(x + k * 0x10000, 0x10000, x / 0x10000 + k, x % 0x10000);
  }

  /** `(a << 16) >> b` for a word at or above 0x8000 and a count of at most sixteen: the
      negative `int` `(a - 2^16) * 2^16` divided exactly by `2^s`. */
  lemma SignedShifted(a: Word, b: Word) returns (y: Int32)
    requires a >= 0x8000 && b % 32 <= 16
    ensures y == ShrInt(ShlInt(a, 16), b)
    ensures y == (a - 0x10000) * Pow2(16 - b % 32) && y < 0
    ensures Pow2(b % 32) * Pow2(16 - b % 32) == 0x10000
  {
    var s := b % 32;
    var p := Pow2(s);
    var q := Pow2(16 - s);
    Pow2Sixteen();
    Pow2Add(s, 16 - s);
    var x := (a - 0x10000) * 0x10000;
    assert ShlInt(a, 16) == x;
    MulMono(-0x8000, a - 0x10000, q);
    MulMono(a - 0x10000, -1, q);
    MulMono(q, 0x10000, 0x8000);
    y := (a - 0x10000) * q;
    DivModUnique(x, p, y, 0) by {
      assert x == (a - 0x10000) * (p * q);
      MulRegroup(a - 0x10000, p, q);
    }
  }

  /** The `(uint)` cast of a negative `int` adds 2^32. */
  lemma UIntOfNegative(y: Int32)
    requires y < 0
    ensures ToUInt(y) == y + 0x1_0000_0000
  {
    DivModUnique(y, 0x1_0000_0000, -1, y + 0x1_0000_0000);
  }

  lemma MulRegroup(x: int, p: int, q: int)
    ensures x * (p * q) == (x * q) * p
  {
  }

  /** The high word of `(a - 2^16) * q + 2^32` when `p * q == 2^16`. */
  lemma NegativeQuotient(a: Word, p: nat, q: nat)
    requires a >= 0x8000 && p > 0 && q > 0 && p * q == 0x10000
    ensures ((a - 0x10000) * q + 0x1_0000_0000) / 0x10000 == a / p + 0x10000 - q
  {
    var t := a / p;
    var r := a % p;
    assert a == t * p + r;
    assert (a - 0x10000) * q + 0x1_0000_0000 == (t - q + 0x10000) * 0x10000 + r * q by {
      assert a * q == t * (p * q) + r * q;
    }
    MulMono(r, p - 1, q);
    DivModUnique((a - 0x10000) * q + 0x1_0000_0000, 0x10000, t - q + 0x10000, r * q);
  }

  /** Shifting left by `m` and then by `n` is shifting by `m + n`. */
  lemma {:induction false} Pow2Add(m: nat, n: nat)
    ensures Pow2(m + n) == Pow2(m) * Pow2(n)
    decreases m
  {
    if m > 0 {
      Pow2Add(m - 1, n);
      assert Pow2(m + n) == 2 * Pow2(m - 1 + n);
    }
  }

  /** SHR by one of a word at or above 0x8000 keeps the top bit set (0x8000 gives 0xc000,
      where a logical shift gives 0x4000); the bit shifted out lands in the top of `O`. */
  lemma ShrByOne(a: Word, b: Word)
    requires a >= 0x8000 && b == 1
    ensures Execute(Shr, a, b).WriteDestAndO?
    ensures Execute(Shr, a, b).dest == a / 2 + 0x8000
    ensures Execute(Shr, a, b).o == a % 2 * 0x8000
  {
    ShrSignExtends(a, b);
    Pow2Fifteen();
    TopHalf(a);
  }

  lemma TopHalf(a: Word)
    ensures a * 0x8000 % 0x10000 == a % 2 * 0x8000
  {
    DivModUnique(a * 0x8000, 0x10000, a / 2, a % 2 * 0x8000);
  }

  lemma Pow2Fifteen()
    ensures Pow2(1) == 2 && Pow2(15) == 0x8000
  {
    Pow2Add(1, 15);
    Pow2Sixteen();
  }

  /** AND, OR and XOR write the destination only; applying XOR twice with the same source
      restores the destination. */
  lemma BitwiseMeaning(a: Word, b: Word)
    ensures Execute(And, a, b) == WriteDest(BitAnd(a, b))
    ensures Execute(Or, a, b) == WriteDest(BitOr(a, b))
    ensures Execute(Xor, a, b) == WriteDest(BitXor(a, b))
    ensures Execute(Xor, Execute(Xor, a, b).dest, b) == WriteDest(a)
    ensures Execute(And, a, a) == WriteDest(a) && Execute(Or, a, a) == WriteDest(a)
  {
    XorInvolution(a, b);
    SelfBitwise(a);
  }

  /** The test each conditional opcode stands for in the DCPU-16 architecture: the next
      instruction runs only when the test holds. */
  predicate Condition(op: BasicOp, a: Word, b: Word)
    requires op in {Ife, Ifn, Ifg, Ifb}
  {
    match op
    case Ife => a == b
    case Ifn => a != b
    case Ifg => a > b
    case Ifb => BitAnd(a, b) != 0
  }

  /** IFE, IFN and IFG arm `skip` exactly when their test fails. IFB is inverted: it arms
      `skip` exactly when the operands share a set bit, i.e. when its test holds. */
  lemma ConditionalsSetSkip(op: BasicOp, a: Word, b: Word)
    requires op in {Ife, Ifn, Ifg, Ifb}
    ensures Execute(op, a, b).SetSkip?
    ensures op != Ifb ==> (Execute(op, a, b).skip <==> !Condition(op, a, b))
    ensures op == Ifb ==> (Execute(op, a, b).skip <==> Condition(op, a, b))
  {
  }
}
