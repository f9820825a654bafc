/** Bitwise operations and shifts of 32-bit words, as integers. */
module Words {
  import opened Memory

  const W := 0x1_0000_0000

  function S(x: word): int { if x < 0x8000_0000 then x else x - W }
  function U(n: int): word { n % W }

  function Pow2(n: nat): (p: nat)
    ensures p > 0
  {
    if n == 0 then 1 else 2 * Pow2(n - 1)
  }

  datatype BitOp = AndBits | OrBits | XorBits

  function Bit(op: BitOp, a: nat, b: nat): nat {
    match op
    case AndBits => if a % 2 == 1 && b % 2 == 1 then 1 else 0
    case OrBits => if a % 2 == 1 || b % 2 == 1 then 1 else 0
    case XorBits => if a % 2 != b % 2 then 1 else 0
  }

  /** The lowest `n` bits, combined bit by bit. */
  function Bits(op: BitOp, a: nat, b: nat, n: nat): (r: nat)
    ensures r < Pow2(n)
  {
    if n == 0 then 0 else 2 * Bits(op, a / 2, b / 2, n - 1) + Bit(op, a, b)
  }

  lemma Pow32()
    ensures Pow2(32) == W
  {
    assert Pow2(8) == 0x100;
    assert Pow2(16) == 0x1_0000;
    assert Pow2(24) == 0x100_0000;
  }

  function And(a: word, b: word): word { Pow32(); Bits(AndBits, a, b, 32) }
  function Or(a: word, b: word): word { Pow32(); Bits(OrBits, a, b, 32) }
  function Xor(a: word, b: word): word { Pow32(); Bits(XorBits, a, b, 32) }

  function Shl(a: word, k: nat): word
    decreases k
  {
    if k == 0 then a else Shl(U(2 * a), k - 1)
  }

  function Shr(a: word, k: nat): word { if k == 0 then a else Shr(a / 2, k - 1) }

  /** C's right shift of a signed value: halving, rounding down. */
  function Ashr(n: int, k: nat): int
    decreases k
  {
    if k == 0 then n else Ashr(n / 2, k - 1)
  }

  /** The ISA's arithmetic shift: the sign bit is copied into the vacated upper bits. */
  function Sra(a: word, k: nat): word
    decreases k
  {
    if k == 0 then a else Sra(a / 2 + (if a >= 0x8000_0000 then 0x8000_0000 else 0), k - 1)
  }

  lemma {:induction false} ShiftsAgree(a: word, k: nat)
    ensures U(Ashr(S(a), k)) == Sra(a, k)
    decreases k
  {
    if k > 0 {
      var b: word := a / 2 + (if a >= 0x8000_0000 then 0x8000_0000 else 0);
      assert S(b) == S(a) / 2;
      ShiftsAgree(b, k - 1);
    }
  }

  // ----- what the operations mean

  /** Bit `i` of a word. */
  predicate BitOf(x: nat, i: nat) { x / Pow2(i) % 2 == 1 }

  lemma HalfFirst(x: nat, i: nat)
    requires i > 0
    ensures x / Pow2(i) == (x / 2) / Pow2(i - 1)
  {
    var p, q := Pow2(i - 1), x / 2 / Pow2(i - 1);
    assert x / 2 == p * q + x / 2 % p;
    Quotient(x, 2 * p, q);
  }

  lemma Quotient(x: int, d: int, q: int)
    requires d > 0 && d * q <= x < d * q + d
    ensures x / d == q
  {
    var e := x / d - q;
    assert x == d * (x / d) + x % d;
    assert e >= 1 ==> d * e >= d;
    assert e <= -1 ==> d * e <= -d;
    assert d * e == d * (x / d) - d * q;
  }

  lemma BitsHalf(op: BitOp, a: nat, b: nat, n: nat)
    requires n > 0
    ensures Bits(op, a, b, n) / 2 == Bits(op, a / 2, b / 2, n - 1) && Bits(op, a, b, n) % 2 == Bit(op, a, b)
  {
    var r, low := Bits(op, a / 2, b / 2, n - 1), Bit(op, a, b);
    assert Bits(op, a, b, n) == 2 * r + low && 0 <= low < 2;
  }

  lemma {:induction false} BitsAt(op: BitOp, a: nat, b: nat, n: nat, i: nat)
    requires i < n
    ensures Bits(op, a, b, n) / Pow2(i) % 2 == Bit(op, a / Pow2(i), b / Pow2(i))
    decreases i
  {
    BitsHalf(op, a, b, n);
    if i > 0 {
      HalfFirst(Bits(op, a, b, n), i);
      HalfFirst(a, i);
      HalfFirst(b, i);
      BitsAt(op, a / 2, b / 2, n - 1, i - 1);
    } else {
      assert Pow2(i) == 1;
    }
  }

  /** Each bit of the result is the boolean operation on the bits in its place. */
  lemma BitwiseOperations(a: word, b: word, i: nat)
    requires i < 32
    ensures BitOf(And(a, b), i) <==> BitOf(a, i) && BitOf(b, i)
    ensures BitOf(Or(a, b), i) <==> BitOf(a, i) || BitOf(b, i)
    ensures BitOf(Xor(a, b), i) <==> BitOf(a, i) != BitOf(b, i)
  {
    BitsAt(AndBits, a, b, 32, i);
    BitsAt(OrBits, a, b, 32, i);
    BitsAt(XorBits, a, b, 32, i);
  }

  /** And a word has no more than its bits. */
  lemma {:induction false} BitsDecide(x: nat, y: nat, n: nat)
    requires x < Pow2(n) && y < Pow2(n) && forall i :: 0 <= i < n ==> BitOf(x, i) == BitOf(y, i)
    ensures x == y
  {
    if n > 0 {
      forall i | 0 <= i < n - 1
        ensures BitOf(x / 2, i) == BitOf(y / 2, i)
      {
        HalfFirst(x, i + 1);
        HalfFirst(y, i + 1);
        assert BitOf(x, i + 1) == BitOf(y, i + 1);
      }
      BitsDecide(x / 2, y / 2, n - 1);
      assert BitOf(x, 0) == BitOf(y, 0);
    }
  }

  lemma ModOfProduct(x: int, y: int)
    ensures U(U(x) * y) == U(x * y)
  {
    var q := x / W;
    assert x == U(x) + W * q;
    assert x * y == U(x) * y + W * (q * y);
    AddMultiple(U(x) * y, q * y);
  }

  lemma AddMultiple(n: int, k: int)
    ensures U(n + W * k) == U(n)
  {}

  /** A left shift multiplies by a power of two and drops what leaves the word. */
  lemma {:induction false} ShiftLeft(a: word, k: nat)
    ensures Shl(a, k) == U(a * Pow2(k))
    decreases k
  {
    if k > 0 {
      ShiftLeft(U(2 * a), k - 1);
      ModOfProduct(2 * a, Pow2(k - 1));
      assert 2 * a * Pow2(k - 1) == a * Pow2(k);
    }
  }

  /** A logical right shift divides by it. */
  lemma {:induction false} ShiftRight(a: word, k: nat)
    ensures Shr(a, k) == a / Pow2(k)
    decreases k
  {
    if k > 0 {
      ShiftRight(a / 2, k - 1);
      HalfFirst(a, k);
    }
  }

  lemma Twice(q: int, p: int)
    ensures q * (2 * p) == 2 * (q * p)
  {}

  /** An arithmetic right shift divides the signed value, rounding down. */
  lemma {:induction false} ShiftRightSigned(n: int, k: nat)
    ensures Ashr(n, k) * Pow2(k) <= n < (Ashr(n, k) + 1) * Pow2(k)
    decreases k
  {
    if k > 0 {
      ShiftRightSigned(n / 2, k - 1);
      var p, q := Pow2(k - 1), Ashr(n / 2, k - 1);
      var low, high := q * p, (q + 1) * p;
      Twice(q, p);
      Twice(q + 1, p);
      Halved(n, low, high);
    }
  }

  lemma Halved(n: int, low: int, high: int)
    requires low <= n / 2 < high
    ensures 2 * low <= n < 2 * high
  {}

  /** The signed value of a word is the one number of its residue class within 32 bits of two's complement. */
  lemma SignedValue(x: word, n: int)
    ensures n == S(x) <==> -0x8000_0000 <= n < 0x8000_0000 && U(n) == x
  {}

  /** `m` shifted left by `k` places, without a width. */
  function Scale(m: nat, k: nat): nat { if k == 0 then m else 2 * Scale(m, k - 1) }

  /** Joining a low part with a high part is adding them. */
  lemma {:induction false} OrOfParts(low: nat, m: nat, k: nat, n: nat)
    requires low < Pow2(k) && Scale(m, k) < Pow2(n) && k <= n
    ensures Bits(OrBits, low, Scale(m, k), n) == low + Scale(m, k)
  {
    if k == 0 {
      OrOfZero(m, n);
    } else {
      OrOfParts(low / 2, m, k - 1, n - 1);
    }
  }

  lemma {:induction false} OrOfZero(b: nat, n: nat)
    requires b < Pow2(n)
    ensures Bits(OrBits, 0, b, n) == b
  {
    if n > 0 { OrOfZero(b / 2, n - 1); }
  }

  /** Sign extension by OR-ing ones above the byte or half-word. */
  lemma SignExtension(v: word)
    ensures v < 0x100 ==> Or(v, 0xFFFF_FF00) == v + 0xFFFF_FF00
    ensures v < 0x1_0000 ==> Or(v, 0xFFFF_0000) == v + 0xFFFF_0000
  {
    Pow32();
    assert Pow2(8) == 0x100 && Pow2(16) == 0x1_0000;
    assert Scale(0xFF_FFFF, 8) == 0xFFFF_FF00;
    assert Scale(0xFFFF, 8) == 0xFF_FF00;
    assert Scale(0xFFFF, 16) == 0xFFFF_0000;
    if v < 0x100 { OrOfParts(v, 0xFF_FFFF, 8, 32); }
    if v < 0x1_0000 { OrOfParts(v, 0xFFFF, 16, 32); }
  }
}
