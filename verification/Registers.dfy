/** The register block of the `g` and `G` packets: every register as four little-endian bytes in hexadecimal. */
module Registers {
  import opened Memory
  import opened Strtol
  import opened Hex

  const REG_BYTES := 4
  const REG_STR_BYTES := 8

  function ByteOf(w: word, k: nat): byte
    requires k < 4
  {
    if k == 0 then Byte0(w) else if k == 1 then Byte1(w) else if k == 2 then Byte2(w) else Byte3(w)
  }

  function BlockByte(regs: seq<word>, i: nat): byte
    requires i < 4 * |regs|
  {
    ByteOf(regs[i / 4], i % 4)
  }

  /** The bytes of all registers, in order. */
  function Block(regs: seq<word>): (r: Bytes) {
    seq(4 * |regs|, i requires 0 <= i < 4 * |regs| => BlockByte(regs, i))
  }

  /** The `i`th group of eight characters. */
  function Field(text: Bytes, i: nat): (r: Bytes)
    requires 8 * i + 8 <= |text|
    ensures |r| == 8
  {
    text[8 * i..8 * i + 8]
  }

  /** A register after a `G`: the field's word, or what it was if the field is not all digits. */
  function Updated(was: word, field: Bytes): word
    requires |field| == 8
  {
    if AllHex(field) then Rw(Decode(field), 0) else was
  }

  function Written(regs: seq<word>, text: Bytes): (r: seq<word>)
    requires |text| == 8 * |regs|
    ensures |r| == |regs|
  {
    seq(|regs|, i requires 0 <= i < |regs| => Updated(regs[i], Field(text, i)))
  }

  // ----- laws

  lemma BlockByteAt(regs: seq<word>, i: nat, k: nat)
    requires i < |regs| && k < 4
    ensures Block(regs)[4 * i + k] == ByteOf(regs[i], k)
  {
    assert (4 * i + k) / 4 == i && (4 * i + k) % 4 == k;
    assert Block(regs)[4 * i + k] == BlockByte(regs, 4 * i + k);
  }

  lemma BlockPart(regs: seq<word>, i: nat)
    requires i < |regs|
    ensures Block(regs)[4 * i..4 * i + 4] == FourBytes(regs[i])
  {
    BlockByteAt(regs, i, 0);
    BlockByteAt(regs, i, 1);
    BlockByteAt(regs, i, 2);
    BlockByteAt(regs, i, 3);
  }

  lemma BlockWord(regs: seq<word>, i: nat)
    requires i < |regs|
    ensures |Block(regs)| == 4 * |regs| && Rw(Block(regs), 4 * i) == regs[i]
  {
    BlockPart(regs, i);
    WordOfPart(Block(regs), 4 * i, regs[i]);
  }

  lemma WordOfPart(b: Bytes, a: nat, w: word)
    requires Fits(b, a, 4) && b[a..a + 4] == FourBytes(w)
    ensures Rw(b, a) == w
  {
    WordOfBytes(w);
    var part := b[a..a + 4];
    assert part[0] == b[a] && part[1] == b[a + 1] && part[2] == b[a + 2] && part[3] == b[a + 3];
  }

  /** The field of register `i` in a reply to `g` is the hexadecimal form of its four bytes. */
  lemma FieldOfBlock(bs: Bytes, i: nat)
    requires 4 * i + 4 <= |bs|
    ensures Field(Encode(bs), i) == Encode(bs[4 * i..4 * i + 4])
  {
    var part := bs[4 * i..4 * i + 4];
    forall k | 0 <= k < 8
      ensures Field(Encode(bs), i)[k] == Encode(part)[k]
    {
      assert Encode(bs)[8 * i + k] == Nibble(bs, 8 * i + k);
      assert (8 * i + k) % 2 == k % 2 && (8 * i + k) / 2 == 4 * i + k / 2;
      assert Encode(part)[k] == Nibble(part, k);
    }
  }

  /** A `G` that carries the reply of `g` sets exactly the registers that `g` saw, whatever they became since. */
  lemma SetWhatWasRead(regs: seq<word>, now: seq<word>)
    requires |now| == |regs|
    ensures |Encode(Block(regs))| == 8 * |regs|
    ensures Written(now, Encode(Block(regs))) == regs
  {
    var text := Encode(Block(regs));
    forall i | 0 <= i < |regs|
      ensures Written(now, text)[i] == regs[i]
    {
      SetWhatWasReadAt(regs, now, i, text);
    }
  }

  lemma SetWhatWasReadAt(regs: seq<word>, now: seq<word>, i: nat, text: Bytes)
    requires |now| == |regs| && i < |regs| && text == Encode(Block(regs))
    ensures Updated(now[i], Field(text, i)) == regs[i]
  {
    var bs := Block(regs);
    FieldOfBlock(bs, i);
    DecodeEncode(bs[4 * i..4 * i + 4]);
    BlockWord(regs, i);
  }

  function FourBytes(w: word): Bytes { [Byte0(w), Byte1(w), Byte2(w), Byte3(w)] }

  lemma ReplyField(regs: seq<word>, i: nat)
    requires i < |regs|
    ensures |Encode(Block(regs))| == 8 * |regs| && Field(Encode(Block(regs)), i) == Encode(FourBytes(regs[i]))
  {
    FieldOfBlock(Block(regs), i);
    BlockPart(regs, i);
  }

  lemma WordText(field: Bytes)
    requires |field| == 8 && Plain(field)
    ensures AllHex(field) && Encode(FourBytes(Rw(Decode(field), 0))) == field
  {
    EncodeDecode(field);
    BytesOfFour(Decode(field));
    PlainIsHex(field);
  }

  lemma PlainIsHex(s: Bytes)
    requires Plain(s)
    ensures AllHex(s)
  {}

  lemma BytesOfFour(d: Bytes)
    requires |d| == 4
    ensures FourBytes(Rw(d, 0)) == d
  {
    BytesOfWord(d[0], d[1], d[2], d[3]);
  }

  /** The registers a `G` sets read back as the text that set them, the others as before. */
  lemma ReadWhatWasSet(regs: seq<word>, text: Bytes, i: nat)
    requires |text| == 8 * |regs| && i < |regs|
    ensures |Encode(Block(regs))| == |Encode(Block(Written(regs, text)))| == |text|
    ensures
      var reply := Encode(Block(Written(regs, text)));
      && (Plain(Field(text, i)) ==> Field(reply, i) == Field(text, i))
      && (!AllHex(Field(text, i)) ==> Field(reply, i) == Field(Encode(Block(regs)), i))
  {
    ReplyField(Written(regs, text), i);
    ReplyField(regs, i);
    if Plain(Field(text, i)) { WordText(Field(text, i)); }
  }

  // ----- the loops of the program

  /** sad_target_read_regs, for the first `n` registers of a core. */
  method TargetReadRegs(regs: array<byte>, core: array<word>, n: nat)
    requires regs.Length == REG_BYTES * n && n <= core.Length
    modifies regs
    ensures regs[..] == Block(core[..n])
  {
    var tot := 0;
    for id := 0 to n
      invariant tot == 4 * id
      invariant forall k :: 0 <= k < tot ==> regs[k] == BlockByte(core[..n], k)
    {
      var reg := core[id];
      for b := 0 to REG_BYTES
        invariant tot == 4 * id + b
        invariant forall k :: 0 <= k < tot ==> regs[k] == BlockByte(core[..n], k)
      {
        regs[tot] := ByteOf(reg, b);
        assert BlockByte(core[..n], tot) == ByteOf(reg, b);
        tot := tot + 1;
      }
    }
  }

  /** sad_target_write_regs: the first `n` registers are set from the bytes, the others stay. */
  method TargetWriteRegs(regs: array<byte>, core: array<word>, n: nat)
    requires regs.Length == REG_BYTES * n && n <= core.Length
    modifies core
    ensures forall i :: 0 <= i < n ==> core[i] == Rw(regs[..], 4 * i)
    ensures core[n..] == old(core[n..])
  {
    for id := 0 to n
      invariant forall i :: 0 <= i < id ==> core[i] == Rw(regs[..], 4 * i)
      invariant core[n..] == old(core[n..])
    {
      core[id] := Word(regs[4 * id], regs[4 * id + 1], regs[4 * id + 2], regs[4 * id + 3]);
    }
  }

  /** build_g: the reply holds every register. */
  method BuildReadRegs(core: array<word>, n: nat) returns (reply: Bytes)
    requires n <= core.Length
    ensures reply == Encode(Block(core[..n]))
  {
    var bytes := new byte[REG_BYTES * n];
    var chars := new byte[REG_STR_BYTES * n];
    TargetReadRegs(bytes, core, n);
    var r := BytesToHexChars(chars, bytes[..]);
    reply := chars[..];
  }

  /** The bytes of the block with one register's replaced. */
  method SetBlock(block: array<byte>, i: nat, field: array<byte>)
    requires 4 * i + 4 <= block.Length && field.Length == 4 && field != block
    modifies block
    ensures Rw(block[..], 4 * i) == Rw(field[..], 0)
    ensures forall k :: 0 <= k < block.Length && !(4 * i <= k < 4 * i + 4) ==> block[k] == old(block[k])
  {
    block[4 * i] := field[0];
    block[4 * i + 1] := field[1];
    block[4 * i + 2] := field[2];
    block[4 * i + 3] := field[3];
  }

  /** The body of build_G's loop. */
  method SetField(block: array<byte>, i: nat, field: array<byte>, text: Bytes)
    requires 4 * i + 4 <= block.Length && field.Length == 4 && field != block && |text| == 8
    modifies block, field
    ensures Rw(block[..], 4 * i) == Updated(old(Rw(block[..], 4 * i)), text)
    ensures forall j: nat :: j != i && 4 * j + 4 <= block.Length ==> Rw(block[..], 4 * j) == old(Rw(block[..], 4 * j))
  {
    ghost var was := Rw(block[..], 4 * i);
    ghost var before := field[..];
    var ret := HexCharsToBytes(field, text);
    FieldDecoded(ret, field[..], before, text, was);
    if ret == UtilX { return; }
    SetBlock(block, i, field);
  }

  /** build_G on the text behind the `G`: exactly the registers whose field is all digits change. */
  method BuildWriteRegs(core: array<word>, n: nat, text: Bytes) returns (ok: bool)
    requires n <= core.Length
    modifies core
    ensures ok <==> |CString(text)| == REG_STR_BYTES * n
    ensures !ok ==> core[..] == old(core[..])
    ensures ok ==> core[..n] == Written(old(core[..n]), CString(text)) && core[n..] == old(core[n..])
  {
    var str := CString(text);
    if |str| != REG_STR_BYTES * n { return false; }
    var block := new byte[REG_BYTES * n];
    TargetReadRegs(block, core, n);
    BlockWords(core[..n]);
    SetFields(block, n, str, core[..n]);
    TargetWriteRegs(block, core, n);
    return true;
  }

  /** build_G's loop over the registers. */
  method SetFields(block: array<byte>, n: nat, str: Bytes, ghost was: seq<word>)
    requires block.Length == REG_BYTES * n && |str| == REG_STR_BYTES * n && |was| == n
    requires forall j :: 0 <= j < n ==> Rw(block[..], 4 * j) == was[j]
    modifies block
    ensures forall j :: 0 <= j < n ==> Rw(block[..], 4 * j) == Updated(was[j], Field(str, j))
  {
    var field := new byte[REG_BYTES];
    for i := 0 to n
      invariant forall j :: 0 <= j < i ==> Rw(block[..], 4 * j) == Updated(was[j], Field(str, j))
      invariant forall j :: i <= j < n ==> Rw(block[..], 4 * j) == was[j]
    {
      SetField(block, i, field, Field(str, i));
    }
  }

  lemma BlockWords(regs: seq<word>)
    ensures |Block(regs)| == 4 * |regs| && forall i :: 0 <= i < |regs| ==> Rw(Block(regs), 4 * i) == regs[i]
  {
    forall i | 0 <= i < |regs|
      ensures Rw(Block(regs), 4 * i) == regs[i]
    {
      BlockWord(regs, i);
    }
  }

  lemma FieldDecoded(r: UtilRet, field: Bytes, before: Bytes, text: Bytes, was: word)
    requires |text| == 8 && |field| == |before| == 4 && HexResult(r, field, before, text)
    ensures r == UtilOk || r == UtilX
    ensures Updated(was, text) == if r == UtilX then was else Rw(field, 0)
  {
    assert Padded(text) == text;
  }
}
