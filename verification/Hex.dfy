/** The hexadecimal codecs of the stub. */
module Hex {
  import opened Memory
  import opened Strtol

  datatype UtilRet = UtilOk | UtilUnexpected | UtilX

  const ZERO: byte := '0' as int

  function Value(c: byte): (v: nat)
    ensures v < 16
  {
    if IsHex(c) then Digit(c).value else 0
  }

  /** The byte that digits `2j` and `2j + 1` write. */
  function Pair(s: Bytes, j: nat): byte
    requires 2 * j + 1 < |s|
  {
    16 * Value(s[2 * j]) + Value(s[2 * j + 1])
  }

  /** A byte for every two digits. */
  function Decode(s: Bytes): (r: Bytes) { seq(|s| / 2, j requires 0 <= j < |s| / 2 => Pair(s, j)) }

  function Nibble(bs: Bytes, i: nat): byte
    requires i < 2 * |bs|
  {
    if i % 2 == 0 then DigitChar(bs[i / 2] / 16) else DigitChar(bs[i / 2] % 16)
  }

  /** Two lower-case digits for every byte. */
  function Encode(bs: Bytes): (r: Bytes) { seq(2 * |bs|, i requires 0 <= i < 2 * |bs| => Nibble(bs, i)) }

  /** An odd number of digits is completed by a zero in front. */
  function Padded(s: Bytes): Bytes { if |s| % 2 == 0 then s else [ZERO] + s }

  // ----- laws of the codecs

  lemma EncodedPair(bs: Bytes, j: nat)
    requires j < |bs|
    ensures Encode(bs)[2 * j] == DigitChar(bs[j] / 16) && Encode(bs)[2 * j + 1] == DigitChar(bs[j] % 16)
  {
    assert (2 * j) % 2 == 0 && (2 * j) / 2 == j;
    assert (2 * j + 1) % 2 == 1 && (2 * j + 1) / 2 == j;
  }

  lemma EncodeIsPlain(bs: Bytes)
    ensures Plain(Encode(bs)) && AllHex(Encode(bs))
  {
    forall i | 0 <= i < |Encode(bs)|
      ensures var c := Encode(bs)[i]; 0x30 <= c <= 0x39 || 0x61 <= c <= 0x66
    {
      assert Encode(bs)[i] == Nibble(bs, i);
    }
  }

  /** Decoding the hexadecimal form of any bytes returns them. */
  lemma DecodeEncode(bs: Bytes)
    ensures AllHex(Encode(bs)) && Decode(Encode(bs)) == bs
  {
    EncodeIsPlain(bs);
    forall j | 0 <= j < |bs|
      ensures Decode(Encode(bs))[j] == bs[j]
    {
      EncodedPair(bs, j);
    }
  }

  /** The hexadecimal form of decoded lower-case digits is those digits. */
  lemma EncodeDecode(s: Bytes)
    requires |s| % 2 == 0 && Plain(s)
    ensures Encode(Decode(s)) == s
  {
    forall j: nat | 2 * j + 1 < |s|
      ensures Encode(Decode(s))[2 * j] == s[2 * j] && Encode(Decode(s))[2 * j + 1] == s[2 * j + 1]
    {
      EncodeDecodePair(s, j);
    }
    PairsCover(Encode(Decode(s)), s);
  }

  lemma EncodeDecodePair(s: Bytes, j: nat)
    requires Plain(s) && 2 * j + 1 < |s|
    ensures 2 * j + 1 < |Encode(Decode(s))|
    ensures Encode(Decode(s))[2 * j] == s[2 * j] && Encode(Decode(s))[2 * j + 1] == s[2 * j + 1]
  {
    EncodedPair(Decode(s), j);
    PlainPair(s[2 * j], s[2 * j + 1]);
  }

  lemma PairsCover(r: Bytes, s: Bytes)
    requires |r| == |s| && |s| % 2 == 0
    requires forall j: nat :: 2 * j + 1 < |s| ==> r[2 * j] == s[2 * j] && r[2 * j + 1] == s[2 * j + 1]
    ensures r == s
  {
    forall i | 0 <= i < |s|
      ensures r[i] == s[i]
    {
      var j: nat := i / 2;
      assert r[2 * j] == s[2 * j] && r[2 * j + 1] == s[2 * j + 1];
    }
  }

  lemma PlainPair(c: byte, d: byte)
    requires (0x30 <= c <= 0x39 || 0x61 <= c <= 0x66) && (0x30 <= d <= 0x39 || 0x61 <= d <= 0x66)
    ensures var b := 16 * Value(c) + Value(d); DigitChar(b / 16) == c && DigitChar(b % 16) == d
  {}

  /** The bytes as one number, most significant byte first. */
  function BigEndian(bs: Bytes): nat {
    if bs == [] then 0 else 0x100 * BigEndian(bs[..|bs| - 1]) + bs[|bs| - 1]
  }

  lemma DecodeSnoc(s: Bytes, c: byte, d: byte)
    requires |s| % 2 == 0
    ensures Decode(s + [c, d]) == Decode(s) + [16 * Value(c) + Value(d)]
  {
    var t := s + [c, d];
    forall j | 0 <= j < |s| / 2
      ensures Pair(t, j) == Pair(s, j)
    {}
  }

  lemma BigEndianSnoc(bs: Bytes, b: byte)
    ensures BigEndian(bs + [b]) == 0x100 * BigEndian(bs) + b
  {
    assert (bs + [b])[..|bs|] == bs;
  }

  lemma {:induction false} EvenValue(s: Bytes)
    requires |s| % 2 == 0 && AllHex(s)
    ensures BigEndian(Decode(s)) == Digits(s, 0)
    decreases |s|
  {
    if s != [] {
      var n := |s| - 2;
      var t, c, d := s[..n], s[n], s[n + 1];
      EvenValue(t);
      EvenValueStep(t, c, d);
      assert t + [c, d] == s;
    }
  }

  lemma EvenValueStep(t: Bytes, c: byte, d: byte)
    requires |t| % 2 == 0 && AllHex(t) && IsHex(c) && IsHex(d) && BigEndian(Decode(t)) == Digits(t, 0)
    ensures BigEndian(Decode(t + [c, d])) == Digits(t + [c, d], 0)
  {
    var x, a, b := Digits(t, 0), Value(c), Value(d);
    BytesSide(t, c, d, x);
    DigitsSide(t, c, d);
    TwoNibbles(x, a, b);
  }

  lemma BytesSide(t: Bytes, c: byte, d: byte, x: nat)
    requires |t| % 2 == 0 && BigEndian(Decode(t)) == x
    ensures BigEndian(Decode(t + [c, d])) == 0x100 * x + (16 * Value(c) + Value(d))
  {
    DecodeSnoc(t, c, d);
    BigEndianSnoc(Decode(t), 16 * Value(c) + Value(d));
  }

  lemma DigitsSide(t: Bytes, c: byte, d: byte)
    requires AllHex(t) && IsHex(c) && IsHex(d)
    ensures Digits(t + [c, d], 0) == 16 * (16 * Digits(t, 0) + Value(c)) + Value(d)
  {
    DigitsSnoc(t, c, 0);
    DigitsSnoc(t + [c], d, 0);
    assert t + [c] + [d] == t + [c, d];
  }

  lemma TwoNibbles(x: int, a: int, b: int)
    ensures 0x100 * x + (16 * a + b) == 16 * (16 * x + a) + b
  {}

  /** Of any length, odd or even, digits decode to the bytes of the number they write. */
  lemma DecodedValue(s: Bytes)
    requires AllHex(s)
    ensures BigEndian(Decode(Padded(s))) == Digits(s, 0)
  {
    EvenValue(Padded(s));
    if |s| % 2 != 0 {
      assert Padded(s)[1..] == s;
      assert Digits(Padded(s), 0) == Digits(s, 0);
    }
  }

  // ----- the codecs as the program writes them

  function Zeros(n: nat): Bytes { seq(n, _ => 0) }

  predicate HexUpTo(p: Bytes, n: nat)
    requires n <= |p|
  {
    forall k :: 0 <= k < n ==> IsHex(p[k])
  }

  /** The destination after the first `n` padded characters: their pairs decoded, the rest as it was. */
  predicate DoneUpTo(dest: Bytes, was: Bytes, p: Bytes, n: nat) {
    && |dest| == |was| && n <= |p| && HexUpTo(p, n) && n / 2 <= |was|
    && (forall j :: 0 <= j < n / 2 ==> dest[j] == Pair(p, j))
    && (forall j :: n / 2 <= j < |was| ==> dest[j] == was[j])
  }

  lemma DonePair(dest: Bytes, was: Bytes, p: Bytes, n: nat, b: byte)
    requires DoneUpTo(dest, was, p, n) && n % 2 == 1 && n < |p| && IsHex(p[n]) && n / 2 < |was|
    requires b == 16 * Value(p[n - 1]) + Value(p[n])
    ensures DoneUpTo(dest[n / 2 := b], was, p, n + 1)
  {
    assert b == Pair(p, n / 2);
  }

  lemma DoneHigh(dest: Bytes, was: Bytes, p: Bytes, n: nat)
    requires DoneUpTo(dest, was, p, n) && n % 2 == 0 && n < |p| && IsHex(p[n])
    ensures DoneUpTo(dest, was, p, n + 1)
  {
    assert (n + 1) / 2 == n / 2;
  }

  /** Reset the bytes from `idx` on. */
  method ResetFrom(dest: array<byte>, idx: nat)
    requires idx <= dest.Length
    modifies dest
    ensures dest[..] == old(dest[..idx]) + Zeros(dest.Length - idx)
  {
    var k := idx;
    while k != dest.Length
      invariant idx <= k <= dest.Length
      invariant dest[..idx] == old(dest[..idx]) && forall j :: idx <= j < k ==> dest[j] == 0
      decreases dest.Length - k
    {
      dest[k] := 0;
      k := k + 1;
    }
  }

  /**
    Too small a destination is left alone. Digits alone fill it with their bytes and zeros; at any other
    character the bytes completed before it stay written.
  */
  ghost predicate HexResult(r: UtilRet, dest: Bytes, was: Bytes, src: Bytes) {
    var p := Padded(src);
    match r
    case UtilUnexpected => |was| < (|src| + 1) / 2 && dest == was
    case UtilOk => |was| >= (|src| + 1) / 2 && AllHex(src) && dest == Decode(p) + Zeros(|was| - |p| / 2)
    case UtilX => |was| >= (|src| + 1) / 2 && exists k :: 0 <= k < |p| && !IsHex(p[k]) && DoneUpTo(dest, was, p, k)
  }

  method HexCharsToBytes(dest: array<byte>, src: Bytes) returns (r: UtilRet)
    modifies dest
    ensures HexResult(r, dest[..], old(dest[..]), src)
  {
    if dest.Length < (|src| + 1) / 2 { return UtilUnexpected; }
    ghost var was := dest[..];
    var bad, idx := PutDigits(dest, src);
    if bad { return UtilX; }
    HexOfPadded(src);
    ResetFrom(dest, idx);
    return UtilOk;
  }

  /** The loop over the digits, up to the end or to a character that is none. */
  method PutDigits(dest: array<byte>, src: Bytes) returns (bad: bool, idx: nat)
    requires dest.Length >= (|src| + 1) / 2
    modifies dest
    ensures idx <= dest.Length
    ensures !bad ==> var p := Padded(src); idx == |p| / 2 && DoneUpTo(dest[..], old(dest[..]), p, |p|)
    ensures bad ==>
              var p := Padded(src);
              exists k :: 0 <= k < |p| && !IsHex(p[k]) && DoneUpTo(dest[..], old(dest[..]), p, k)
  {
    ghost var p, odd, was := Padded(src), |src| % 2, dest[..];
    var high := |src| % 2 == 0;
    var tmp: byte := 0;
    idx := 0;
    for i := 0 to |src|
      invariant idx == (i + odd) / 2 && high == ((i + odd) % 2 == 0)
      invariant DoneUpTo(dest[..], was, p, i + odd)
      invariant high || tmp == 16 * Value(p[i + odd - 1])
    {
      var c := src[i];
      assert c == p[i + odd];
      var v := HexValue(c);
      if v == -1 { return true, idx; }
      if high {
        DoneHigh(dest[..], was, p, i + odd);
        tmp := 16 * v;
      } else {
        tmp := tmp + v;
        DonePair(dest[..], was, p, i + odd, tmp);
        dest[idx] := tmp;
        idx := idx + 1;
      }
      high := !high;
    }
    bad := false;
  }

  lemma HexOfPadded(src: Bytes)
    requires HexUpTo(Padded(src), |Padded(src)|)
    ensures AllHex(src)
  {
    assert |src| % 2 != 0 ==> src == Padded(src)[1..];
  }

  /** The digit's value, or -1. */
  method HexValue(c: byte) returns (v: int)
    ensures v == if IsHex(c) then Value(c) else -1
  {
    if 0x30 <= c <= 0x39 { return c - 0x30; }
    if 0x41 <= c <= 0x46 { return c - 0x41 + 10; }
    if 0x61 <= c <= 0x66 { return c - 0x61 + 10; }
    return -1;
  }

  /** The source is a C string. */
  method HexStrToBytes(dest: array<byte>, src: Bytes) returns (r: UtilRet)
    modifies dest
    ensures HexResult(r, dest[..], old(dest[..]), CString(src))
  {
    r := HexCharsToBytes(dest, CString(src));
  }

  method BytesToHexChars(dest: array<byte>, src: Bytes) returns (r: UtilRet)
    modifies dest
    ensures r == if dest.Length < 2 * |src| then UtilUnexpected else UtilOk
    ensures r == UtilUnexpected ==> dest[..] == old(dest[..])
    ensures r == UtilOk ==> dest[..] == Encode(src) + old(dest[..])[2 * |src|..]
  {
    if dest.Length < 2 * |src| { return UtilUnexpected; }
    for i := 0 to |src|
      invariant forall k :: 0 <= k < 2 * i ==> dest[k] == Nibble(src, k)
      invariant forall k :: 2 * i <= k < dest.Length ==> dest[k] == old(dest[k])
    {
      var v := src[i];
      dest[2 * i] := DigitChar(v / 16);
      dest[2 * i + 1] := DigitChar(v % 16);
      assert Nibble(src, 2 * i) == DigitChar(v / 16) && Nibble(src, 2 * i + 1) == DigitChar(v % 16);
    }
    return UtilOk;
  }
}
