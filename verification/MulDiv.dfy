/**
  The M extension: the interpreter computes with C's 64-bit products and truncating division behind
  guards; the specification is the mathematical one of chapter 7 of the Unprivileged ISA.
  Operands and results are 32-bit words as integers.
*/
module MulDiv {

  import opened Memory
  import opened Words

  const WW := 0x1_0000_0000_0000_0000

  // ----- as the interpreter computes them

  /** The upper half, by way of an unsigned 64-bit temporary whose low half is masked out. */
  function UpperOfTemporary(product: int): word {
    var tmp := product % WW;
    var masked := tmp - tmp % W;
    masked / W
  }

  function Mul(a: word, b: word): word { U(S(a) * S(b)) }
  function Mulh(a: word, b: word): word { UpperOfTemporary(S(a) * S(b)) }
  function Mulhsu(a: word, b: word): word { UpperOfTemporary(S(a) * b) }
  function Mulhu(a: word, b: word): word { UpperOfTemporary(a * b) }

  /** Division of magnitudes, by repeated subtraction. */
  function Quotient(m: nat, d: nat): nat
    requires d > 0
  {
    if m < d then 0 else 1 + Quotient(m - d, d)
  }

  function Remainder(m: nat, d: nat): nat
    requires d > 0
  {
    if m < d then m else Remainder(m - d, d)
  }

  /** C's signed division truncates toward zero; the remainder has the sign of the dividend. */
  function CDiv(a: int, b: int): int
    requires b != 0
  {
    var q: int := Quotient(Abs(a), Abs(b));
    if (a < 0) == (b < 0) then q else -q
  }

  function CRem(a: int, b: int): int
    requires b != 0
  {
    var r: int := Remainder(Abs(a), Abs(b));
    if a < 0 then -r else r
  }

  function Abs(a: int): nat { if a < 0 then -a else a }

  /** C leaves signed division undefined for a zero divisor and for the one quotient that does not fit. */
  predicate CDivDefined(a: int, b: int) { b != 0 && -0x8000_0000 <= CDiv(a, b) < 0x8000_0000 }

  function Div(a: word, b: word): word {
    if b == 0 then 0xFFFF_FFFF
    else if S(b) == -1 && S(a) == -0x8000_0000 then 0x8000_0000
    else U(CDiv(S(a), S(b)))
  }

  function Rem(a: word, b: word): word {
    if b == 0 then a
    else if S(b) == -1 && S(a) == -0x8000_0000 then 0
    else U(CRem(S(a), S(b)))
  }

  function Divu(a: word, b: word): word { if b == 0 then 0xFFFF_FFFF else a / b }
  function Remu(a: word, b: word): word { if b == 0 then a else a % b }

  // ----- as the ISA specifies them

  /** The halves of the exact product, rounding the upper one down. */
  function SpecMul(a: word, b: word): word { U(a * b) }
  function SpecMulh(a: word, b: word): word { U((S(a) * S(b)) / W) }
  function SpecMulhsu(a: word, b: word): word { U((S(a) * b) / W) }
  function SpecMulhu(a: word, b: word): word { U((a * b) / W) }

  /** Rounding toward zero; a zero divisor gives all ones and the dividend, an overflow wraps around. */
  function SpecDiv(a: word, b: word): word { if b == 0 then U(-1) else U(CDiv(S(a), S(b))) }
  function SpecRem(a: word, b: word): word { if b == 0 then a else U(CRem(S(a), S(b))) }
  function SpecDivu(a: word, b: word): word { if b == 0 then U(-1) else U(a / b) }
  function SpecRemu(a: word, b: word): word { if b == 0 then a else U(a % b) }

  // ----- multiplication

  lemma Monotone(x: int, y: int, n: int)
    requires x >= 0 && y <= n
    ensures x * y <= x * n
  {
    NonNegative(x, n - y);
    assert x * (n - y) == x * n - x * y;
  }

  lemma NonNegative(x: int, y: int)
    requires x >= 0 && y >= 0
    ensures x * y >= 0
  {}

  lemma Negated(x: int, y: int)
    ensures (-x) * y == -(x * y) == x * (-y)
  {}

  lemma MagnitudeBound(x: int, y: int, m: int, n: int)
    requires 0 <= x <= m && -n <= y <= n
    ensures -(m * n) <= x * y <= m * n
  {
    Monotone(x, y, n);
    Monotone(x, -y, n);
    Negated(x, y);
    Monotone(n, x, m);
    assert n * x == x * n && n * m == m * n;
  }

  lemma ProductBound(x: int, y: int, m: int, n: int)
    requires -m <= x <= m && -n <= y <= n
    ensures -(m * n) <= x * y <= m * n
  {
    if x >= 0 {
      MagnitudeBound(x, y, m, n);
    } else {
      MagnitudeBound(-x, y, m, n);
      Negated(x, y);
    }
  }

  /** No intermediate overflow: the signed products fit 64 signed bits, the unsigned one 64 unsigned bits. */
  lemma ProductsFit(a: word, b: word)
    ensures -0x8000_0000_0000_0000 <= S(a) * S(b) < 0x8000_0000_0000_0000
    ensures -0x8000_0000_0000_0000 <= S(a) * b < 0x8000_0000_0000_0000
    ensures 0 <= a * b < WW
  {
    ProductBound(S(a), S(b), 0x8000_0000, 0x8000_0000);
    ProductBound(S(a), b, 0x8000_0000, 0xFFFF_FFFF);
    ProductBound(a, b, 0xFFFF_FFFF, 0xFFFF_FFFF);
    NonNegative(a, b);
  }

  lemma UpperIsFloor(p: int)
    requires -WW / 2 <= p < WW
    ensures UpperOfTemporary(p) == U(p / W)
    ensures p == (p / W) * W + U(p)
  {
    HalvesOf(p);
  }

  lemma HalvesOf(p: int)
    ensures p == (p / W) * W + U(p)
  {}

  /** Changing an operand by the word size changes the product by a multiple of it. */
  lemma LowHalfIsSignBlind(a: word, b: word)
    ensures U(S(a) * S(b)) == U(S(a) * b) == U(a * b)
  {
    Shifted(S(a), S(b), b);
    Shifted(b, S(a), a);
    assert S(a) * b == b * S(a) && a * b == b * a;
  }

  lemma Shifted(x: int, y: int, z: int)
    requires y == z || y == z - W
    ensures U(x * y) == U(x * z)
  {
    if y == z - W {
      assert x * y == x * z + W * (-x);
      ModShift(x * z, -x);
    }
  }

  lemma ModShift(n: int, k: int)
    ensures (n + W * k) % W == n % W
  {
    var q, r := n / W, n % W;
    assert n + W * k == W * (q + k) + r;
    UniqueDivMod(n + W * k, q + k, r);
  }

  lemma UniqueDivMod(n: int, q: int, r: int)
    requires n == W * q + r && 0 <= r < W
    ensures n / W == q && n % W == r
  {}

  /** MULH, MULHSU and MULHU are each the upper half of the exact 64-bit product whose lower half is MUL. */
  lemma ExactProducts(a: word, b: word)
    ensures S(Mulh(a, b)) * W + Mul(a, b) == S(a) * S(b)
    ensures S(Mulhsu(a, b)) * W + Mul(a, b) == S(a) * b
    ensures Mulhu(a, b) * W + Mul(a, b) == a * b
  {
    ProductsFit(a, b);
    LowHalfIsSignBlind(a, b);
    SignedUpper(S(a) * S(b), Mul(a, b));
    SignedUpper(S(a) * b, Mul(a, b));
    UnsignedUpper(a * b, Mul(a, b));
  }

  lemma SignedUpper(p: int, low: word)
    requires -0x8000_0000_0000_0000 <= p < 0x8000_0000_0000_0000 && low == U(p)
    ensures S(UpperOfTemporary(p)) * W + low == p
  {
    UpperIsFloor(p);
  }

  lemma UnsignedUpper(p: int, low: word)
    requires 0 <= p < WW && low == U(p)
    ensures UpperOfTemporary(p) * W + low == p
  {
    UpperIsFloor(p);
  }

  // ----- division

  lemma {:induction false} QuotientRemainder(m: nat, d: nat)
    requires d > 0
    ensures m == Quotient(m, d) * d + Remainder(m, d) && Remainder(m, d) < d && Quotient(m, d) <= m
  {
    if m >= d {
      QuotientRemainder(m - d, d);
      var q := Quotient(m - d, d);
      assert (1 + q) * d == q * d + d;
    }
  }

  lemma CDivRem(a: int, b: int)
    requires b != 0
    ensures a == CDiv(a, b) * b + CRem(a, b)
    ensures Abs(CRem(a, b)) < Abs(b)
    ensures CRem(a, b) != 0 ==> (CRem(a, b) < 0 <==> a < 0)
    ensures Abs(CDiv(a, b)) <= Abs(a)
  {
    QuotientRemainder(Abs(a), Abs(b));
    WithSigns(a, b, Quotient(Abs(a), Abs(b)), Remainder(Abs(a), Abs(b)));
  }

  lemma WithSigns(a: int, b: int, q: int, r: int)
    requires Abs(a) == q * Abs(b) + r
    ensures a == (if (a < 0) == (b < 0) then q else -q) * b + (if a < 0 then -r else r)
  {
    Negated(q, b);
  }

  /** The guards in front of the native division leave it only defined cases. */
  lemma GuardsKeepDivisionDefined(a: word, b: word)
    ensures b != 0 && !(S(b) == -1 && S(a) == -0x8000_0000) <==> b != 0 && CDivDefined(S(a), S(b))
  {
    if b != 0 {
      CDivRem(S(a), S(b));
      if S(a) == -0x8000_0000 && CDiv(S(a), S(b)) == 0x8000_0000 {
        var q, r := CDiv(S(a), S(b)), CRem(S(a), S(b));
        assert q * S(b) + r == -q;
        assert S(b) >= 0 ==> q * S(b) >= 0;
        assert S(b) <= -2 ==> q * S(b) <= -2 * q;
      }
    }
  }

  lemma SignedWordRoundTrip(n: int)
    requires -0x8000_0000 <= n < 0x8000_0000
    ensures S(U(n)) == n
  {}

  /** DIV and REM: the quotient truncates toward zero, the remainder follows the dividend. */
  lemma SignedDivision(a: word, b: word)
    requires b != 0 && !(S(b) == -1 && S(a) == -0x8000_0000)
    ensures S(a) == S(Div(a, b)) * S(b) + S(Rem(a, b))
    ensures Abs(S(Rem(a, b))) < Abs(S(b))
    ensures S(Rem(a, b)) != 0 ==> (S(Rem(a, b)) < 0 <==> S(a) < 0)
  {
    GuardsKeepDivisionDefined(a, b);
    CDivRem(S(a), S(b));
    SignedWordRoundTrip(CDiv(S(a), S(b)));
    SignedWordRoundTrip(CRem(S(a), S(b)));
  }

  /** The two special cases still satisfy dividend = divisor * quotient + remainder, modulo the word size. */
  lemma SpecialCases(a: word)
    ensures Div(a, 0) == U(-1) && Rem(a, 0) == a && Divu(a, 0) == W - 1 && Remu(a, 0) == a
    ensures S(Div(0x8000_0000, 0xFFFF_FFFF)) == -0x8000_0000 && Rem(0x8000_0000, 0xFFFF_FFFF) == 0
    ensures U(S(0x8000_0000)) == U(S(Div(0x8000_0000, 0xFFFF_FFFF)) * S(0xFFFF_FFFF) + S(Rem(0x8000_0000, 0xFFFF_FFFF)))
  {}

  lemma UnsignedDivision(a: word, b: word)
    requires b != 0
    ensures a == Divu(a, b) * b + Remu(a, b) && Remu(a, b) < b
  {}

  lemma UnsignedFits(a: word, b: word)
    requires b != 0
    ensures U(a / b) == a / b && U(a % b) == a % b
  {
    var q := a / b;
    assert a == q * b + a % b;
    NotBelow(q, b);
  }

  lemma NotBelow(q: int, d: int)
    requires q >= 0 && d >= 1
    ensures q <= q * d
  {
    NonNegative(q, d - 1);
    assert q * d == q + q * (d - 1);
  }

  lemma {:induction false} DivideByOne(m: nat)
    ensures Quotient(m, 1) == m && Remainder(m, 1) == 0
  {
    if m > 0 { DivideByOne(m - 1); }
  }

  lemma DivisionMatches(a: word, b: word)
    ensures Div(a, b) == SpecDiv(a, b) && Rem(a, b) == SpecRem(a, b)
  {
    if S(b) == -1 && S(a) == -0x8000_0000 { DivideByOne(0x8000_0000); }
  }

  lemma MultiplicationMatches(a: word, b: word)
    ensures Mul(a, b) == SpecMul(a, b) && Mulh(a, b) == SpecMulh(a, b)
    ensures Mulhsu(a, b) == SpecMulhsu(a, b) && Mulhu(a, b) == SpecMulhu(a, b)
  {
    ProductsFit(a, b);
    LowHalfIsSignBlind(a, b);
    UpperIsFloor(S(a) * S(b));
    UpperIsFloor(S(a) * b);
    UpperIsFloor(a * b);
  }

  /** What the interpreter computes is what the ISA specifies, for all operands. */
  lemma MatchesSpec(a: word, b: word)
    ensures Mul(a, b) == SpecMul(a, b) && Mulh(a, b) == SpecMulh(a, b)
    ensures Mulhsu(a, b) == SpecMulhsu(a, b) && Mulhu(a, b) == SpecMulhu(a, b)
    ensures Div(a, b) == SpecDiv(a, b) && Rem(a, b) == SpecRem(a, b)
    ensures Divu(a, b) == SpecDivu(a, b) && Remu(a, b) == SpecRemu(a, b)
  {
    MultiplicationMatches(a, b);
    DivisionMatches(a, b);
    if b != 0 { UnsignedFits(a, b); }
  }
}
