/** Machine words and the C# integer operators the emulator's arithmetic is written with.

    The emulator stores every value as a C# `ushort` but computes on `int` and `uint`:
    each `ushort` operand is promoted to `int`, the `int` arithmetic wraps silently
    (unchecked context), shift counts are masked to five bits, `>>` on `int` is an
    arithmetic shift, and casts keep the low bits. Dafny integers are unbounded, so
    each of those operators is written out here once and used by the operation table.
 */
module Words {

  /** A C# `ushort`: one 16-bit machine word. */
  type Word = x: int | 0 <= x < 0x10000

  /** A C# `uint`. */
  type UInt32 = x: int | 0 <= x < 0x1_0000_0000

  /** A C# `int`. */
  type Int32 = x: int | -0x8000_0000 <= x < 0x8000_0000

  function Pow2(k: nat): (r: nat)
    ensures r > 0
  {
    if k == 0 then 1 else 2 * Pow2(k - 1)
  }

  /** `x & 0xffff` on an `int` or a `uint`: the low sixteen bits of the two's-complement value. */
  function Low16(x: int): Word
  {
    x % 0x10000
  }

  /** The `(ushort)` cast: truncation to the low sixteen bits. */
  function ToUShort(x: int): Word
  {
    Low16(x)
  }

  /** The `(uint)` cast: the low thirty-two bits read as unsigned. */
  function ToUInt(x: int): (r: UInt32)
    ensures (r - x) % 0x1_0000_0000 == 0
  {
    x % 0x1_0000_0000
  }

  /** Unchecked `int` arithmetic: the low thirty-two bits read as two's complement. */
  function ToInt(x: int): (r: Int32)
    ensures (r - x) % 0x1_0000_0000 == 0
  {
    var u := x % 0x1_0000_0000;
    if u < 0x8000_0000 then u else u - 0x1_0000_0000
  }

  /** `x << n` on `int`: the count is masked to five bits and the product wraps. */
  function ShlInt(x: int, n: nat): (r: Int32)
    ensures (r - x * Pow2(n % 32)) % 0x1_0000_0000 == 0
  {
    ToInt(x * Pow2(n % 32))
  }

  /** `x >> n` on `int`: an arithmetic shift, which rounds toward negative infinity. */
  function ShrInt(x: Int32, n: nat): (r: Int32)
    ensures Pow2(n % 32) * r <= x < Pow2(n % 32) * (r + 1)
  {
    FloorDivBound(x, Pow2(n % 32));
    x / Pow2(n % 32)
  }

  /** `x >> n` on `uint`: a logical shift. */
  function ShrUInt(x: UInt32, n: nat): UInt32
  {
    FloorDivBound(x, Pow2(n % 32));
    x / Pow2(n % 32)
  }

  /** `ushort` post-increment, as in `pc++` and `sp++`. */
  function Inc(x: Word): (r: Word)
    ensures x < 0xffff ==> r == x + 1
    ensures x == 0xffff ==> r == 0
  {
    ToUShort(x + 1)
  }

  /** `ushort` pre-decrement, as in `--sp`. */
  function Dec(x: Word): (r: Word)
    ensures x > 0 ==> r == x - 1
    ensures x == 0 ==> r == 0xffff
  {
    ToUShort(x - 1)
  }

  /** `&` on two non-negative integers, bit by bit from the least significant end. */
  function And(a: nat, b: nat): (r: nat)
    ensures r <= a && r <= b
    decreases a + b
  {
    if a == 0 && b == 0 then 0 else 2 * And(a / 2, b / 2) + (a % 2) * (b % 2)
  }

  /** `|` on two non-negative integers. */
  function Or(a: nat, b: nat): (r: nat)
    ensures a <= r <= a + b
    decreases a + b
  {
    if a == 0 && b == 0 then 0 else 2 * Or(a / 2, b / 2) + (if a % 2 == 1 || b % 2 == 1 then 1 else 0)
  }

  /** `^` on two non-negative integers. */
  function Xor(a: nat, b: nat): (r: nat)
    ensures r <= a + b
    decreases a + b
  {
    if a == 0 && b == 0 then 0 else 2 * Xor(a / 2, b / 2) + (a % 2 + b % 2) % 2
  }

  /** Bit `k` of a non-negative integer: the reference the three operators above are
      checked against. */
  function Bit(x: nat, k: nat): (r: nat)
    ensures r < 2
  {
    if k == 0 then x % 2 else Bit(x / 2, k - 1)
  }

  /** `(ushort)(a & b)`, `(ushort)(a | b)` and `(ushort)(a ^ b)` on two promoted `ushort` values. */
  function BitAnd(a: Word, b: Word): Word
  {
    And(a, b)
  }

  function BitOr(a: Word, b: Word): Word
  {
    Pow2Sixteen();
    BitwiseBound(a, b, 16);
    Or(a, b)
  }

  function BitXor(a: Word, b: Word): Word
  {
    Pow2Sixteen();
    BitwiseBound(a, b, 16);
    Xor(a, b)
  }

  // ---------------------------------------------------------------------------
  // Facts about the operators above.

  /** Dividing by a positive number moves a value toward zero, never past it. */
  lemma FloorDivBound(x: int, p: int)
    requires p > 0
    ensures x >= 0 ==> 0 <= x / p <= x
    ensures x < 0 ==> x <= x / p < 0
  {
    var q := x / p;
    assert x == q * p + x % p;
    MulSign(q, p);
    MulMono(1, p, q);
    MulMono(q + 1, 0, p - 1);
    assert (q + 1) * (p - 1) == q * p - q + p - 1;
  }

  lemma MulMono(a: int, b: int, c: int)
    ensures a <= b && c >= 0 ==> a * c <= b * c
  {
  }

  /** Increment and decrement undo each other, wrap-around included. */
  lemma IncDec(x: Word)
    ensures Dec(Inc(x)) == x
    ensures Inc(Dec(x)) == x
  {
  }

  lemma MulSign(k: int, d: int)
    requires d > 0
    ensures k >= 1 ==> k * d >= d
    ensures k <= -1 ==> k * d <= -d
  {
  }

  /** Division is determined by quotient and remainder. */
  lemma DivModUnique(x: int, d: int, q: int, r: int)
    requires d > 0
    requires x == q * d + r
    requires 0 <= r < d
    ensures x / d == q
    ensures x % d == r
  {
    var k := q - x / d;
    assert k * d == x % d - r;
    MulSign(k, d);
  }

  /** Widening a non-negative value that fits in 32 bits through `int` and back to `uint` is exact. */
  lemma UIntOfInt(x: int)
    requires 0 <= x < 0x1_0000_0000
    ensures ToUInt(ToInt(x)) == x
  {
  }

  /** Unchecked `int` arithmetic followed by the `(uint)` cast keeps the low 32 bits. */
  lemma UIntOfWrapped(x: int)
    ensures ToUInt(ToInt(x)) == ToUInt(x)
  {
    var u := x % 0x1_0000_0000;
    if u >= 0x8000_0000 {
      DivModUnique(u - 0x1_0000_0000, 0x1_0000_0000, -1, u);
    }
  }

  /** Two 16-bit factors never overflow a `uint`. */
  lemma ProductOfWords(a: Word, b: Word)
    ensures 0 <= a * b <= 0xffff * 0xffff
  {
    MulMono(b, 0xffff, a);
    MulMono(a, 0xffff, 0xffff);
    MulMono(0, a, b);
  }

  /** Taking sixteen bits of the low thirty-two bits gives the low sixteen bits. */
  lemma Low16OfUInt(x: int)
    ensures Low16(ToUInt(x)) == Low16(x)
  {
    var q := x / 0x1_0000_0000;
    var u := x % 0x1_0000_0000;
    assert x == q * 0x1_0000_0000 + u;
    DivModUnique(x, 0x10000, q * 0x10000 + u / 0x10000, u % 0x10000);
  }

  /** Dividing twice is dividing by the product. */
  lemma DivDiv(x: int, p: int, q: int)
    requires x >= 0 && p > 0 && q > 0
    ensures x / p / q == x / (p * q)
  {
    var a := x / p;
    var b := a / q;
    var r := a % q;
    assert x == a * p + x % p;
    assert a == b * q + r;
    Distrib(b, q, r, p);
    assert x == b * (p * q) + (r * p + x % p);
    MulMono(r, q - 1, p);
    assert (q - 1) * p == p * q - p;
    DivModUnique(x, p * q, b, r * p + x % p);
  }

  lemma Distrib(b: int, q: int, r: int, p: int)
    ensures (b * q + r) * p == b * (p * q) + r * p
  {
  }

  /** `a * 2^16 / b` keeps `a / b` above its low sixteen bits. */
  lemma ScaledQuotient(a: nat, b: nat)
    requires b > 0
    ensures a * 0x10000 / b / 0x10000 == a / b
  {
    DivDiv(a * 0x10000, b, 0x10000);
    assert b * 0x10000 == 0x10000 * b;
    DivModUnique(a * 0x10000, b * 0x10000, a / b, (a % b) * 0x10000) by {
      assert a == a / b * b + a % b;
      assert a * 0x10000 == a / b * (b * 0x10000) + (a % b) * 0x10000;
      assert (a % b) * 0x10000 < b * 0x10000;
    }
  }

  /** Sixteen bits make a word. */
  lemma Pow2Sixteen()
    ensures Pow2(16) == 0x10000
  {
    assert Pow2(4) == 16;
    assert Pow2(8) == 256;
    assert Pow2(12) == 4096;
  }

  /** Or and xor of two values below `2^k` stay below `2^k`: the operators never widen a word. */
  lemma BitwiseBound(a: nat, b: nat, k: nat)
    requires a < Pow2(k) && b < Pow2(k)
    ensures Or(a, b) < Pow2(k)
    ensures Xor(a, b) < Pow2(k)
  {
    OrBound(a, b, k);
    XorBound(a, b, k);
  }

  lemma {:induction false} OrBound(a: nat, b: nat, k: nat)
    requires a < Pow2(k) && b < Pow2(k)
    ensures Or(a, b) < Pow2(k)
  {
    if a != 0 || b != 0 {
      var half := HalfBelow(a, b, k);
      OrBound(a / 2, b / 2, k - 1);
    }
  }

  lemma {:induction false} XorBound(a: nat, b: nat, k: nat)
    requires a < Pow2(k) && b < Pow2(k)
    ensures Xor(a, b) < Pow2(k)
  {
    if a != 0 || b != 0 {
      var half := HalfBelow(a, b, k);
      XorBound(a / 2, b / 2, k - 1);
    }
  }

  /** Below `2^k` and not both zero: `k` is positive and the halves are below `2^(k-1)`. */
  lemma HalfBelow(a: nat, b: nat, k: nat) returns (half: nat)
    requires a < Pow2(k) && b < Pow2(k)
    requires a != 0 || b != 0
    ensures k >= 1 && half == Pow2(k - 1) && Pow2(k) == 2 * half
    ensures a / 2 < half && b / 2 < half
  {
    assert Pow2(0) == 1;
    half := Pow2(k - 1);
  }

  /** Xor with the same value twice gives back the original value. */
  lemma {:induction false} XorInvolution(a: nat, b: nat)
    ensures Xor(Xor(a, b), b) == a
    decreases a + b
  {
    if a != 0 || b != 0 {
      var h := Xor(a / 2, b / 2);
      var bit := (a % 2 + b % 2) % 2;
      var x := Xor(a, b);
      XorStep(a, b);
      DivModUnique(x, 2, h, bit);
      XorInvolution(a / 2, b / 2);
      XorStep(x, b);
      ParityCancel(a % 2, b % 2);
    }
  }

  lemma ParityCancel(x: int, y: int)
    requires 0 <= x < 2 && 0 <= y < 2
    ensures ((x + y) % 2 + y) % 2 == x
  {
    if x == 0 {
      if y == 0 {
        assert ((x + y) % 2 + y) % 2 == 0;
      } else {
        assert (x + y) % 2 == 1;
      }
    } else {
      if y == 0 {
        assert (x + y) % 2 == 1;
      } else {
        assert (x + y) % 2 == 0;
      }
    }
  }

  lemma XorStep(a: nat, b: nat)
    ensures Xor(a, b) == 2 * Xor(a / 2, b / 2) + (a % 2 + b % 2) % 2
  {
  }

  /** A value anded, ored or xored with itself. */
  lemma {:induction false} SelfBitwise(a: nat)
    ensures And(a, a) == a
    ensures Or(a, a) == a
    ensures Xor(a, a) == 0
    decreases a
  {
    if a != 0 {
      SelfBitwise(a / 2);
    }
  }

  /** And and or are commutative. */
  lemma {:induction false} BitwiseCommutes(a: nat, b: nat)
    ensures And(a, b) == And(b, a)
    ensures Or(a, b) == Or(b, a)
    ensures Xor(a, b) == Xor(b, a)
    decreases a + b
  {
    if a != 0 || b != 0 {
      BitwiseCommutes(a / 2, b / 2);
    }
  }

  // ---------------------------------------------------------------------------
  // The bitwise operators agree with their bit-by-bit meaning.

  lemma ZeroBits(k: nat)
    ensures Bit(0, k) == 0
  {
  }

  /** Bit `k` of `a & b` is set exactly when bit `k` is set in both. */
  lemma {:induction false} AndBits(a: nat, b: nat, k: nat)
    ensures Bit(And(a, b), k) == Bit(a, k) * Bit(b, k)
    decreases k
  {
    if a == 0 && b == 0 {
      ZeroBits(k);
    } else {
      var h := And(a / 2, b / 2);
      DivModUnique(And(a, b), 2, h, (a % 2) * (b % 2));
      if k > 0 {
        AndBits(a / 2, b / 2, k - 1);
      }
    }
  }

  /** Bit `k` of `a | b` is set exactly when bit `k` is set in either. */
  lemma {:induction false} OrBits(a: nat, b: nat, k: nat)
    ensures Bit(Or(a, b), k) == if Bit(a, k) == 1 || Bit(b, k) == 1 then 1 else 0
    decreases k
  {
    if a == 0 && b == 0 {
      ZeroBits(k);
    } else {
      var h := Or(a / 2, b / 2);
      DivModUnique(Or(a, b), 2, h, if a % 2 == 1 || b % 2 == 1 then 1 else 0);
      if k > 0 {
        OrBits(a / 2, b / 2, k - 1);
      }
    }
  }

  /** Bit `k` of `a ^ b` is set exactly when bit `k` is set in one of them only. */
  lemma {:induction false} XorBits(a: nat, b: nat, k: nat)
    ensures Bit(Xor(a, b), k) == if Bit(a, k) != Bit(b, k) then 1 else 0
    decreases k
  {
    if a == 0 && b == 0 {
      ZeroBits(k);
    } else {
      var h := Xor(a / 2, b / 2);
      DivModUnique(Xor(a, b), 2, h, (a % 2 + b % 2) % 2);
      if k > 0 {
        XorBits(a / 2, b / 2, k - 1);
      }
    }
  }
}
