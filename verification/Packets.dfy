/**
  Every command as its packet is written: for the text a debugger sends, the reply and what changes, in
  numbers and registers rather than in characters.
*/
module Packets {
  import opened Memory
  import opened Partial
  import opened Strtol
  import opened Hex
  import opened Tokenizer
  import opened Commands
  import opened Breakpoints
  import opened Builder
  import Registers
  import Cpu
  import VPacket

  /** A packet and what the stub made of it. */
  datatype Exchange = Exchange(
    payload: Bytes, plan: VPacket.Plan, names: seq<Bytes>, stop: Stop, reply: Reply, was: State, now: State)

  /** As the stub does it: Builder.Stub.Build gives such exchanges only. */
  ghost predicate Served(x: Exchange) {
    && |x.was.core| == Cpu.REG_NUMS && StopFits(x.stop, |x.stop.regs|) && |x.was.mem| <= TWO_TO_32
    && Answered(x.payload, x.plan, x.names, x.stop, x.reply, x.was, x.now)
  }

  /** The reply is an error and nothing has changed. */
  predicate Fails(x: Exchange) { x.reply == Payload(['E' as int]) && x.now == x.was }

  predicate Succeeds(x: Exchange) { x.reply == Payload(['O' as int, 'K' as int]) }

  predicate Sends(x: Exchange, command: char, text: Bytes)
    requires (command as int) < 0x100
  {
    x.payload == [command as int] + text
  }

  /** What the dispatch makes of a packet for breakpoints. */
  lemma InsertCase(x: Exchange, args: Bytes)
    requires Served(x) && Sends(x, 'Z', args)
    ensures x.now == x.was.(table := x.now.table, mem := x.now.mem)
    ensures PointInserted(ParseArgs(Some(args), InsertArgs()), x.reply,
              x.was.table, x.was.mem, x.now.table, x.now.mem)
  {
    assert x.payload[1..] == args;
  }

  lemma RemoveCase(x: Exchange, args: Bytes)
    requires Served(x) && Sends(x, 'z', args)
    ensures x.now == x.was.(table := x.now.table, mem := x.now.mem)
    ensures PointRemoved(ParseArgs(Some(args), RemoveArgs()), x.reply,
              x.was.table, x.was.mem, x.now.table, x.now.mem)
  {
    assert x.payload[1..] == args;
  }

  lemma WriteCase(x: Exchange)
    requires Served(x) && x.payload != [] && x.payload[0] as char == 'M'
    ensures x.now == x.was.(mem := x.now.mem)
    ensures MemWritten(x.reply, x.now.mem, x.was.mem, ParseArgs(Some(x.payload[1..]), WriteMemArgs()))
  {}

  lemma SelectCase(x: Exchange)
    requires Served(x) && x.payload != [] && x.payload[0] as char == 'H'
    ensures x.now == x.was.(selected := x.now.selected)
    ensures CoreSelected(x.payload, x.reply, |x.names|, x.was.selected, x.now.selected)
  {}

  // ----- arguments

  /** Two numbers with a separator, and possibly more behind another one. */
  function Two(a: nat, sep: byte, b: nat): Bytes { HexNumber(a) + [sep] + HexNumber(b) }

  function Three(a: nat, b: nat, c: nat): Bytes { HexNumber(a) + [',' as int] + Two(b, ',' as int, c) }

  lemma OneNumber(n: nat, arg: Arg)
    requires arg.term.None?
    ensures ParseArgs(Some(HexNumber(n)), [arg]) == if Commands.Takes(n, arg) then Values([n], None) else Refused
  {
    ArgsRoundTrip([n], [arg], None);
  }

  lemma TwoNumbers(a: nat, sep: byte, b: nat, args: seq<Arg>)
    requires |args| == 2 && args[0].term == Some(sep) && !IsHex(sep) && args[1].term.None?
    ensures ParseArgs(Some(Two(a, sep, b)), args) ==
            if Commands.Takes(a, args[0]) && Commands.Takes(b, args[1]) then Values([a, b], None) else Refused
  {
    ArgsRoundTrip([a, b], args, None);
    assert [a, b][1..] == [b] && args[1..] == [args[1]];
    assert Written([b], args[1..], None) == HexNumber(b);
  }

  lemma TwoNumbersAndText(a: nat, sep: byte, b: nat, sep': byte, text: Bytes, args: seq<Arg>)
    requires |args| == 2 && args[0].term == Some(sep) && args[1].term == Some(sep') && !IsHex(sep) && !IsHex(sep')
    ensures ParseArgs(Some(Two(a, sep, b) + [sep'] + text), args) ==
            if Commands.Takes(a, args[0]) && Commands.Takes(b, args[1]) then Values([a, b], Some(text)) else Refused
  {
    ArgsRoundTrip([a, b], args, Some(text));
    assert [a, b][1..] == [b] && args[1..] == [args[1]];
    assert Written([b], args[1..], Some(text)) == HexNumber(b) + [sep'] + text;
    assert Two(a, sep, b) + [sep'] + text == HexNumber(a) + [sep] + (HexNumber(b) + [sep'] + text);
  }

  lemma ThreeNumbers(a: nat, b: nat, c: nat, args: seq<Arg>)
    requires |args| == 3 && args[0].term == args[1].term == Some(',' as int)
    requires args[2].term.Some? ==> !IsHex(args[2].term.value)
    ensures ParseArgs(Some(Three(a, b, c)), args) ==
            if Commands.Takes(a, args[0]) && Commands.Takes(b, args[1]) && Commands.Takes(c, args[2])
            then Values([a, b, c], None) else Refused
  {
    ArgsRoundTrip([a, b, c], args, None);
    assert [a, b, c][1..] == [b, c] && [b, c][1..] == [c] && args[1..][1..] == [args[2]];
    assert Written([c], args[1..][1..], None) == HexNumber(c);
    assert Written([b, c], args[1..], None) == Two(b, ',' as int, c);
  }

  // ----- registers

  /** `p n`: register n, its least significant byte first. */
  lemma ReadRegister(x: Exchange, n: nat)
    requires Served(x) && Sends(x, 'p', HexNumber(n))
    ensures x.now == x.was
    ensures x.reply == Payload(
              if n >= 33 then ['E' as int]
              else var w := x.was.core[n];
                TwoDigits(w % 0x100) + TwoDigits(w / 0x100 % 0x100) + TwoDigits(w / 0x1_0000 % 0x100)
                + TwoDigits(w / 0x100_0000))
  {
    assert x.payload[1..] == HexNumber(n);
    OneNumber(n, Arg32(None));
    if n < 33 { WordAsText(x.was.core[n]); }
  }

  lemma WordAsText(w: word)
    ensures Encode(Registers.FourBytes(w)) ==
            TwoDigits(w % 0x100) + TwoDigits(w / 0x100 % 0x100) + TwoDigits(w / 0x1_0000 % 0x100)
            + TwoDigits(w / 0x100_0000)
  {
    var four := Registers.FourBytes(w);
    EncodedPair(four, 0);
    EncodedPair(four, 1);
    EncodedPair(four, 2);
    EncodedPair(four, 3);
  }

  /** `P n=v`: the low 32 bits go to register n and to no other. */
  lemma WriteRegister(x: Exchange, n: nat, v: nat)
    requires Served(x) && Sends(x, 'P', Two(n, '=' as int, v))
    ensures if n < 33 && v < LONG_MAX
            then Succeeds(x) && x.now == x.was.(core := x.was.core[n := v % 0x1_0000_0000])
            else Fails(x)
  {
    assert x.payload[1..] == Two(n, '=' as int, v);
    TwoNumbers(n, '=' as int, v, WriteRegArgs());
  }

  /** `g`: 33 fields of eight characters, in order. */
  lemma ReadRegisters(x: Exchange, i: nat)
    requires Served(x) && Sends(x, 'g', []) && i < 33
    ensures x.now == x.was && x.reply.Payload? && |x.reply.bytes| == 264
    ensures x.reply.bytes[8 * i..8 * i + 8] == Encode(Registers.FourBytes(x.was.core[i]))
  {
    Registers.ReplyField(x.was.core[..33], i);
  }

  /** `G` with 33 fields: every field of digits goes to its register, the others stay. */
  lemma WriteRegisters(x: Exchange, text: Bytes, i: nat)
    requires Served(x) && Sends(x, 'G', text) && 0 !in text && |text| == 264 && i < Cpu.REG_NUMS
    ensures Succeeds(x) && x.now == x.was.(core := x.now.core) && |x.now.core| == Cpu.REG_NUMS
    ensures x.now.core[i] ==
            if i < 33 && AllHex(text[8 * i..8 * i + 8]) then Rw(Decode(text[8 * i..8 * i + 8]), 0) else x.was.core[i]
  {
    assert x.payload[1..] == text;
    VPacket.NoNul(text);
    if i < 33 {
      assert x.now.core[..33][i] == Registers.Updated(x.was.core[..33][i], Registers.Field(text, i));
    } else {
      assert x.now.core[33..][i - 33] == x.was.core[33..][i - 33];
    }
  }

  /** A `G` of any other length is an error. */
  lemma WriteRegistersFails(x: Exchange, text: Bytes)
    requires Served(x) && Sends(x, 'G', text) && 0 !in text && |text| != 264
    ensures Fails(x)
  {
    assert x.payload[1..] == text;
    VPacket.NoNul(text);
  }

  // ----- memory

  /** `m a,l`: memory in hexadecimal, if the range ends below the last byte. */
  lemma ReadMemory(x: Exchange, a: nat, l: nat)
    requires Served(x) && Sends(x, 'm', Two(a, ',' as int, l))
    ensures x.now == x.was
    ensures x.reply == Payload(if a + l < |x.was.mem| then Encode(x.was.mem[a..a + l]) else ['E' as int])
  {
    assert x.payload[0] as char == 'm' && x.payload[1..] == Two(a, ',' as int, l);
    MemoryRead(a, l, x.was.mem);
  }

  lemma MemoryRead(a: nat, l: nat, mem: Bytes)
    requires |mem| <= TWO_TO_32
    ensures MemReply(ParseArgs(Some(Two(a, ',' as int, l)), ReadMemArgs()), mem) ==
            Payload(if a + l < |mem| then Encode(mem[a..a + l]) else ['E' as int])
  {
    TwoNumbers(a, ',' as int, l, ReadMemArgs());
    ReplyOfRange(a, l, mem, ParseArgs(Some(Two(a, ',' as int, l)), ReadMemArgs()));
  }

  lemma ReplyOfRange(a: nat, l: nat, mem: Bytes, p: Parsed)
    requires |mem| <= TWO_TO_32 && p == if a < LONG_MAX && l < LONG_MAX then Values([a, l], None) else Refused
    ensures MemReply(p, mem) == Payload(if a + l < |mem| then Encode(mem[a..a + l]) else ['E' as int])
  {}

  function WriteText(a: nat, l: nat, data: Bytes): Bytes { Two(a, ',' as int, l) + [':' as int] + Encode(data) }

  /** `M a,l:bytes`: the bytes are in memory from `a` on, and nothing else has changed. */
  lemma WriteMemory(x: Exchange, a: nat, l: nat, data: Bytes)
    requires Served(x) && Sends(x, 'M', WriteText(a, l, data))
    ensures if a + l < |x.was.mem| && |data| == l
            then Succeeds(x) && x.now == x.was.(mem := Spliced(x.was.mem, a, data))
            else Fails(x)
  {
    assert x.payload[1..] == WriteText(a, l, data);
    WriteCase(x);
    MemoryWritten(a, l, data, x.reply, x.now.mem, x.was.mem);
  }

  lemma MemoryWritten(a: nat, l: nat, data: Bytes, r: Reply, after: Bytes, mem: Bytes)
    requires |mem| <= TWO_TO_32 && MemWritten(r, after, mem, ParseArgs(Some(WriteText(a, l, data)), WriteMemArgs()))
    ensures if a + l < |mem| && |data| == l then r == Payload(OK) && after == Spliced(mem, a, data)
            else r == Payload(E) && after == mem
  {
    TwoNumbersAndText(a, ',' as int, l, ':' as int, Encode(data), WriteMemArgs());
    DecodeEncode(data);
    HexHasNoNul(Encode(data));
  }

  // ----- breakpoints

  predicate HasRoom(t: Table) { exists i :: 0 <= i < |t| && !t[i].full }

  /** `Z type,a,kind`: of type 0 and kind 4, inside memory, and as long as there is an empty slot. */
  lemma InsertPacket(x: Exchange, type_: nat, a: nat, kind: nat)
    requires Served(x) && Sends(x, 'Z', Three(type_, a, kind))
    ensures if type_ != 0 || kind != 4 || a >= |x.was.mem| || !HasRoom(x.was.table) then Fails(x)
            else if a + 4 > |x.was.mem| then x.reply == Overruns && x.now == x.was
            else
              && Succeeds(x) && x.now == x.was.(table := x.now.table, mem := x.now.mem)
              && (x.now.table, x.now.mem, Inserted) == Insert(x.was.table, x.was.mem, a)
  {
    InsertCase(x, Three(type_, a, kind));
    PointIn(type_, a, kind, x.reply, x.was.table, x.was.mem, x.now.table, x.now.mem);
  }

  lemma PointIn(type_: nat, a: nat, kind: nat, r: Reply, t: Table, mem: Bytes, t': Table, mem': Bytes)
    requires |mem| <= TWO_TO_32
    requires PointInserted(ParseArgs(Some(Three(type_, a, kind)), InsertArgs()), r, t, mem, t', mem')
    ensures if type_ != 0 || kind != 4 || a >= |mem| || !HasRoom(t) then r == Payload(E) && t' == t && mem' == mem
            else if a + 4 > |mem| then r == Overruns && t' == t && mem' == mem
            else r == Payload(OK) && (t', mem', Inserted) == Insert(t, mem, a)
  {
    ThreeNumbers(type_, a, kind, InsertArgs());
  }

  /** `z type,a,kind`: likewise, if the breakpoint is planted. */
  lemma RemovePacket(x: Exchange, type_: nat, a: nat, kind: nat)
    requires Served(x) && Sends(x, 'z', Three(type_, a, kind))
    ensures if type_ != 0 || kind != 4 || a >= |x.was.mem| || !Planted(x.was.table, a) then Fails(x)
            else if a + 4 > |x.was.mem| then x.reply == Overruns && x.now == x.was
            else
              && Succeeds(x) && x.now == x.was.(table := x.now.table, mem := x.now.mem)
              && (x.now.table, x.now.mem, Removed) == Remove(x.was.table, x.was.mem, a)
  {
    RemoveCase(x, Three(type_, a, kind));
    PointOut(type_, a, kind, x.reply, x.was.table, x.was.mem, x.now.table, x.now.mem);
  }

  lemma PointOut(type_: nat, a: nat, kind: nat, r: Reply, t: Table, mem: Bytes, t': Table, mem': Bytes)
    requires |mem| <= TWO_TO_32
    requires PointRemoved(ParseArgs(Some(Three(type_, a, kind)), RemoveArgs()), r, t, mem, t', mem')
    ensures if type_ != 0 || kind != 4 || a >= |mem| || !Planted(t, a) then r == Payload(E) && t' == t && mem' == mem
            else if a + 4 > |mem| then r == Overruns && t' == t && mem' == mem
            else r == Payload(OK) && (t', mem', Removed) == Remove(t, mem, a)
  {
    ThreeNumbers(type_, a, kind, RemoveArgs());
  }

  // ----- the session

  /** `Hg n`: thread n is selected, and 0 is the first one. */
  lemma SelectPacket(x: Exchange, n: nat)
    requires Served(x) && Sends(x, 'H', ['g' as int] + HexNumber(n))
    ensures if n <= |x.names| && n <= UINT32_MAX
            then Succeeds(x) && x.now == x.was.(selected := if n == 0 then 0 else n - 1)
            else Fails(x)
  {
    var rest := x.payload[2..];
    assert x.payload[0] == 'H' as int && x.payload[1] == 'g' as int && rest == HexNumber(n);
    SelectCase(x);
    NumbersExactly(n);
  }

  /** `QStartNoAckMode` turns acknowledgements off; any other `Q` packet gets an empty reply. */
  lemma ModePacket(x: Exchange, text: Bytes)
    requires Served(x) && Sends(x, 'Q', text) && 0 !in text && ':' as int !in text
    ensures if x.payload == Ascii("QStartNoAckMode") then Succeeds(x) && x.now == x.was.(ack := false)
            else x.reply == Payload([]) && x.now == x.was
  {
    VPacket.WholeToken(x.payload, ':' as int);
    VPacket.NoNul(x.payload);
  }

  /** `?`, `T`, and the characters that are no command. */
  lemma PlainPackets(x: Exchange, command: byte, text: Bytes)
    requires Served(x) && x.payload == [command] + text
    ensures command == '?' as int ==> x.reply == Payload(['S' as int, '0' as int, '5' as int]) && x.now == x.was
    ensures command == 'T' as int ==> Succeeds(x) && x.now == x.was
    ensures command as char !in "pPqQ?mMgGTzZHv" ==> x.reply == Payload([]) && x.now == x.was
  {
    assert Ascii("S05") == ['S' as int, '0' as int, '5' as int];
    assert "pPqQ?mMgGTzZHv" == ['p', 'P', 'q', 'Q', '?', 'm', 'M', 'g', 'G', 'T', 'z', 'Z', 'H', 'v'];
  }
}
