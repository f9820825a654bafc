/** Guest memory: one byte array, read and written as little-endian bytes, half-words and words. */
module Memory {

  type byte = x: int | 0 <= x < 0x100
  type word = x: int | 0 <= x < 0x1_0000_0000
  type Bytes = seq<byte>

  function Concat(pieces: seq<Bytes>): Bytes {
    if pieces == [] then [] else pieces[0] + Concat(pieces[1..])
  }

  /** The `n` bytes at `a` lie inside the memory. */
  predicate Fits(m: Bytes, a: int, n: int) { 0 <= a && 0 <= n && a + n <= |m| }

  function Half(b0: byte, b1: byte): word { b0 + 0x100 * b1 }
  function Word(b0: byte, b1: byte, b2: byte, b3: byte): word { b0 + 0x100 * b1 + 0x1_0000 * b2 + 0x100_0000 * b3 }

  function Byte0(w: word): byte { w % 0x100 }
  function Byte1(w: word): byte { w / 0x100 % 0x100 }
  function Byte2(w: word): byte { w / 0x1_0000 % 0x100 }
  function Byte3(w: word): byte { w / 0x100_0000 }

  function Rb(m: Bytes, a: nat): word
    requires Fits(m, a, 1)
  {
    m[a]
  }

  function Rh(m: Bytes, a: nat): word
    requires Fits(m, a, 2)
  {
    Half(m[a], m[a + 1])
  }

  function Rw(m: Bytes, a: nat): word
    requires Fits(m, a, 4)
  {
    Word(m[a], m[a + 1], m[a + 2], m[a + 3])
  }

  function Wb(m: Bytes, a: nat, v: word): (n: Bytes)
    requires Fits(m, a, 1)
    ensures |n| == |m|
  {
    m[a := Byte0(v)]
  }

  function Wh(m: Bytes, a: nat, v: word): (n: Bytes)
    requires Fits(m, a, 2)
    ensures |n| == |m|
  {
    m[a := Byte0(v)][a + 1 := Byte1(v)]
  }

  function Ww(m: Bytes, a: nat, v: word): (n: Bytes)
    requires Fits(m, a, 4)
    ensures |n| == |m|
  {
    m[a := Byte0(v)][a + 1 := Byte1(v)][a + 2 := Byte2(v)][a + 3 := Byte3(v)]
  }

  /** The bytes at `addr` replaced. */
  function Spliced(m: Bytes, addr: nat, data: Bytes): (r: Bytes)
    requires Fits(m, addr, |data|)
    ensures |r| == |m| && r[addr..addr + |data|] == data
    ensures forall i :: 0 <= i < |m| && !(addr <= i < addr + |data|) ==> r[i] == m[i]
  {
    m[..addr] + data + m[addr + |data|..]
  }

  lemma WordOfBytes(w: word)
    ensures Word(Byte0(w), Byte1(w), Byte2(w), Byte3(w)) == w
  {
    var a, b, c := w / 0x100, w / 0x1_0000, w / 0x100_0000;
    assert w == 0x100 * a + w % 0x100;
    assert a == 0x100 * b + a % 0x100 && b == 0x100 * c + b % 0x100;
  }

  lemma BytesOfWord(b0: byte, b1: byte, b2: byte, b3: byte)
    ensures
      var w := Word(b0, b1, b2, b3);
      Byte0(w) == b0 && Byte1(w) == b1 && Byte2(w) == b2 && Byte3(w) == b3
  {
    var w := Word(b0, b1, b2, b3);
    assert w / 0x100 == b1 + 0x100 * b2 + 0x1_0000 * b3;
    assert w / 0x1_0000 == b2 + 0x100 * b3;
    assert w / 0x100_0000 == b3;
  }

  /** A stored word is read back. */
  lemma ReadBack(m: Bytes, a: nat, v: word)
    requires Fits(m, a, 4)
    ensures Rw(Ww(m, a, v), a) == v
  {
    WordOfBytes(v);
  }

  /** Writing back the word that was there changes nothing, whatever was written in between. */
  lemma Restore(m: Bytes, a: nat, v: word)
    requires Fits(m, a, 4)
    ensures Ww(Ww(m, a, v), a, Rw(m, a)) == m
  {
    BytesOfWord(m[a], m[a + 1], m[a + 2], m[a + 3]);
  }

  /** Little-endian order: a larger access is two smaller ones, the lower half at the lower address. */
  lemma LoadsCompose(m: Bytes, a: nat)
    ensures Fits(m, a, 2) ==> Rh(m, a) == Rb(m, a) + 0x100 * Rb(m, a + 1)
    ensures Fits(m, a, 4) ==> Rw(m, a) == Rh(m, a) + 0x1_0000 * Rh(m, a + 2)
  {}

  lemma StoresCompose(m: Bytes, a: nat, v: word)
    ensures Fits(m, a, 2) ==> Wh(m, a, v) == Wb(Wb(m, a, v), a + 1, v / 0x100)
    ensures Fits(m, a, 4) ==> Ww(m, a, v) == Wh(Wh(m, a, v), a + 2, v / 0x1_0000)
  {}

  /** Smaller stores keep the low part of the value and touch nothing else. */
  lemma SmallerReadBack(m: Bytes, a: nat, v: word)
    ensures Fits(m, a, 1) ==> Rb(Wb(m, a, v), a) == v % 0x100
    ensures Fits(m, a, 2) ==> Rh(Wh(m, a, v), a) == v % 0x1_0000
  {
    assert v % 0x1_0000 == v % 0x100 + 0x100 * (v / 0x100 % 0x100);
  }

  lemma StoresStayInPlace(m: Bytes, a: nat, v: word, i: nat)
    requires i < |m|
    ensures Fits(m, a, 1) && i != a ==> Wb(m, a, v)[i] == m[i]
    ensures Fits(m, a, 2) && !(a <= i < a + 2) ==> Wh(m, a, v)[i] == m[i]
    ensures Fits(m, a, 4) && !(a <= i < a + 4) ==> Ww(m, a, v)[i] == m[i]
  {}

  /** The shared byte array, updated in place. Accesses are not checked against its size. */
  class Vmem {
    const bytes: array<byte>

    constructor (size: nat)
      ensures bytes.Length == size && fresh(bytes)
    {
      bytes := new byte[size];
    }

    method LoadByte(addr: nat) returns (w: word)
      requires addr + 1 <= bytes.Length
      ensures w == Rb(bytes[..], addr)
    {
      w := bytes[addr];
    }

    method LoadHalf(addr: nat) returns (w: word)
      requires addr + 2 <= bytes.Length
      ensures w == Rh(bytes[..], addr)
    {
      w := Half(bytes[addr], bytes[addr + 1]);
    }

    method LoadWord(addr: nat) returns (w: word)
      requires addr + 4 <= bytes.Length
      ensures w == Rw(bytes[..], addr)
    {
      w := Word(bytes[addr], bytes[addr + 1], bytes[addr + 2], bytes[addr + 3]);
    }

    method ReadBlock(addr: nat, size: nat) returns (s: Bytes)
      requires addr + size <= bytes.Length
      ensures s == bytes[addr..addr + size]
    {
      s := bytes[addr..addr + size];
    }

    method WriteBlock(addr: nat, s: Bytes)
      requires addr + |s| <= bytes.Length
      modifies bytes
      ensures bytes[..] == Spliced(old(bytes[..]), addr, s)
    {
      forall i | 0 <= i < |s| { bytes[addr + i] := s[i]; }
    }

    method StoreByte(addr: nat, v: word)
      requires addr + 1 <= bytes.Length
      modifies bytes
      ensures bytes[..] == Wb(old(bytes[..]), addr, v)
    {
      bytes[addr] := Byte0(v);
    }

    method StoreHalf(addr: nat, v: word)
      requires addr + 2 <= bytes.Length
      modifies bytes
      ensures bytes[..] == Wh(old(bytes[..]), addr, v)
    {
      bytes[addr] := Byte0(v);
      bytes[addr + 1] := Byte1(v);
    }

    method StoreWord(addr: nat, v: word)
      requires addr + 4 <= bytes.Length
      modifies bytes
      ensures bytes[..] == Ww(old(bytes[..]), addr, v)
    {
      bytes[addr] := Byte0(v);
      bytes[addr + 1] := Byte1(v);
      bytes[addr + 2] := Byte2(v);
      bytes[addr + 3] := Byte3(v);
    }
  }
}
