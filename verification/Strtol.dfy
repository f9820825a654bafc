/** Characters as bytes, and the C library's `strtol(s, NULL, 16)` that the stub parses numbers with. */
module Strtol {
  import opened Memory
  import opened Partial

  /** The bytes of a character string. */
  function Ascii(s: string): Bytes
    requires forall i :: 0 <= i < |s| ==> (s[i] as int) < 0x100
  {
    seq(|s|, i requires 0 <= i < |s| => s[i] as int)
  }

  const PLUS: byte := '+' as int
  const MINUS: byte := '-' as int
  const DOLLAR: byte := '$' as int
  const HASH: byte := '#' as int

  const LONG_MAX := 0x7FFF_FFFF_FFFF_FFFF
  const LONG_MIN := -0x8000_0000_0000_0000

  /** The value of a hexadecimal digit, in either case. */
  function Digit(c: byte): (r: Option<nat>)
    ensures r.Some? ==> r.value < 16
  {
    if 0x30 <= c <= 0x39 then Some(c - 0x30)
    else if 0x41 <= c <= 0x46 then Some(c - 0x41 + 10)
    else if 0x61 <= c <= 0x66 then Some(c - 0x61 + 10)
    else None
  }

  predicate IsHex(c: byte) { Digit(c).Some? }

  predicate AllHex(s: Bytes) { forall i :: 0 <= i < |s| ==> IsHex(s[i]) }

  predicate IsSpace(c: byte) { c == 0x20 || 9 <= c <= 13 }

  /** The characters before the first NUL. */
  function CString(s: Bytes): (r: Bytes)
    ensures |r| <= |s| && r == s[..|r|] && 0 !in r
    ensures |r| < |s| ==> s[|r|] == 0
  {
    if s == [] || s[0] == 0 then [] else [s[0]] + CString(s[1..])
  }

  function SkipSpaces(s: Bytes): Bytes {
    if s != [] && IsSpace(s[0]) then SkipSpaces(s[1..]) else s
  }

  /** The value of the leading hexadecimal digits, continuing from `acc`. */
  function Digits(s: Bytes, acc: nat): nat {
    if s != [] && IsHex(s[0]) then Digits(s[1..], 16 * acc + Digit(s[0]).value) else acc
  }

  /** An optional 0x counts as a prefix if a digit follows; otherwise its 0 is the number. */
  function Magnitude(s: Bytes): nat {
    if |s| >= 3 && s[0] == 0x30 && (s[1] == 0x78 || s[1] == 0x58) && IsHex(s[2]) then Digits(s[2..], 0)
    else Digits(s, 0)
  }

  function Saturate(x: int): int { if x > LONG_MAX then LONG_MAX else if x < LONG_MIN then LONG_MIN else x }

  function Strtol16(s: Bytes): (r: int)
    ensures LONG_MIN <= r <= LONG_MAX
  {
    var t := SkipSpaces(CString(s));
    if t != [] && t[0] == MINUS then var m: int := Magnitude(t[1..]); Saturate(-m)
    else if t != [] && t[0] == PLUS then Saturate(Magnitude(t[1..]))
    else Saturate(Magnitude(t))
  }

  // ----- writing numbers

  function DigitChar(d: nat): (c: byte)
    requires d < 16
    ensures Digit(c) == Some(d)
    ensures c != HASH && c != 0 && !IsSpace(c) && c != MINUS && c != PLUS && c != 0x78 && c != 0x58
  {
    if d < 10 then 0x30 + d else 0x61 + d - 10
  }

  /** `%x`: lower-case digits, most significant first, no leading zeros but for zero itself. */
  function HexNumber(n: nat): (s: Bytes)
    ensures |s| > 0
    decreases n
  {
    if n < 16 then [DigitChar(n)] else HexNumber(n / 16) + [DigitChar(n % 16)]
  }

  /** All characters are lower-case hexadecimal digits. */
  predicate Plain(s: Bytes) { forall i :: 0 <= i < |s| ==> (0x30 <= s[i] <= 0x39 || 0x61 <= s[i] <= 0x66) }

  /** `%02x` of a byte. */
  function TwoDigits(b: byte): (r: Bytes)
    ensures |r| == 2 && Plain(r)
  {
    [DigitChar(b / 16), DigitChar(b % 16)]
  }

  lemma {:induction false} DigitsSnoc(s: Bytes, c: byte, acc: nat)
    requires AllHex(s) && IsHex(c)
    ensures Digits(s + [c], acc) == 16 * Digits(s, acc) + Digit(c).value
    decreases |s|
  {
    if s == [] {
      assert Digits([c][1..], 16 * acc + Digit(c).value) == 16 * acc + Digit(c).value;
    } else {
      assert (s + [c])[1..] == s[1..] + [c];
      DigitsSnoc(s[1..], c, 16 * acc + Digit(s[0]).value);
    }
  }

  lemma {:induction false} HexNumberDigits(n: nat)
    ensures Plain(HexNumber(n)) && Digits(HexNumber(n), 0) == n
    decreases n
  {
    if n < 16 {
      assert HexNumber(n)[1..] == [];
    } else {
      HexNumberDigits(n / 16);
      DigitsSnoc(HexNumber(n / 16), DigitChar(n % 16), 0);
    }
  }

  lemma {:induction false} PlainHasNoNul(s: Bytes)
    requires Plain(s)
    ensures CString(s) == s
    decreases |s|
  {
    if s != [] { PlainHasNoNul(s[1..]); }
  }

  /** A string of digits is read as the number they write. */
  lemma PlainIsRead(s: Bytes)
    requires Plain(s)
    ensures Strtol16(s) == Saturate(Digits(s, 0))
  {
    PlainHasNoNul(s);
    if s != [] { assert IsHex(s[0]); }
  }

  /** Numbers written in hexadecimal are read back, up to the largest that saturation does not touch. */
  lemma NumbersAreReadBack(n: nat)
    ensures Strtol16(HexNumber(n)) == if n <= LONG_MAX then n else LONG_MAX
  {
    HexNumberDigits(n);
    PlainIsRead(HexNumber(n));
  }

  // ----- the rest of what strtol accepts

  /** The digits of both cases have the values of their places, and nothing else is a digit. */
  lemma DigitTable(c: byte)
    ensures forall d :: 0 <= d < 10 ==> Digit('0' as int + d) == Some(d)
    ensures forall d :: 10 <= d < 16 ==> Digit('a' as int + d - 10) == Some(d) && Digit('A' as int + d - 10) == Some(d)
    ensures IsHex(c) <==>
            '0' as int <= c <= '9' as int || 'a' as int <= c <= 'f' as int || 'A' as int <= c <= 'F' as int
  {}

  lemma PrefixedNoNul(c: byte, s: Bytes)
    requires c != 0 && CString(s) == s
    ensures CString([c] + s) == [c] + s
  {
    assert ([c] + s)[1..] == s;
  }

  /** A sign in front of a number negates it or does nothing, up to saturation on either side. */
  lemma SignsAreRead(n: nat)
    ensures Strtol16([MINUS] + HexNumber(n)) == if n <= 0x8000_0000_0000_0000 then -(n as int) else LONG_MIN
    ensures Strtol16([PLUS] + HexNumber(n)) == if n <= LONG_MAX then n else LONG_MAX
  {
    var s := HexNumber(n);
    HexNumberDigits(n);
    PlainHasNoNul(s);
    PrefixedNoNul(MINUS, s);
    PrefixedNoNul(PLUS, s);
    assert ([MINUS] + s)[1..] == s && ([PLUS] + s)[1..] == s;
  }

  /** White space in front is skipped, and so is 0x in front of the digits. */
  lemma PrefixesAreSkipped(n: nat)
    ensures Strtol16([' ' as int] + HexNumber(n)) == Strtol16(HexNumber(n))
    ensures Strtol16(['0' as int, 'x' as int] + HexNumber(n)) == Strtol16(HexNumber(n))
  {
    var s := HexNumber(n);
    HexNumberDigits(n);
    PlainHasNoNul(s);
    PrefixedNoNul(' ' as int, s);
    assert ([' ' as int] + s)[1..] == s;
    PrefixedNoNul('x' as int, s);
    PrefixedNoNul('0' as int, ['x' as int] + s);
    assert ['0' as int] + (['x' as int] + s) == ['0' as int, 'x' as int] + s;
    assert (['0' as int, 'x' as int] + s)[2..] == s;
    PlainIsRead(s);
    assert IsHex(s[0]);
  }

  /** What follows the digits does not matter. */
  lemma {:induction false} DigitsStop(s: Bytes, c: byte, more: Bytes, acc: nat)
    requires AllHex(s) && !IsHex(c)
    ensures Digits(s + [c] + more, acc) == Digits(s, acc)
    decreases |s|
  {
    var t := s + [c] + more;
    if s != [] {
      assert t[1..] == s[1..] + [c] + more;
      DigitsStop(s[1..], c, more, 16 * acc + Digit(s[0]).value);
    }
  }
}
