/**
  The command builders of the stub and the frame around their replies. A reply never contains `#`, so
  every frame is read back.
*/
module Builder {
  import opened Memory
  import opened Partial
  import opened Strtol
  import opened Hex
  import opened Tokenizer
  import opened Commands
  import opened Breakpoints
  import Registers
  import Parser
  import opened Frame
  import Cpu
  import opened PktBuffer
  import Conversation
  import VPacket

  /** Registers the debugger sees: x0 to x31 and the PC. */
  const REGS_NUM := 33
  const BRKPT_SIZE := 4

  /** A payload; or the program aborts; or it runs over the end of guest memory, which is not described. */
  datatype Reply = Payload(bytes: Bytes) | Aborts | Overruns

  predicate Clean(s: Bytes) { HASH !in s }

  predicate CleanReply(r: Reply) { r.Payload? ==> Clean(r.bytes) }

  const E: Bytes := ['E' as int]
  const OK: Bytes := ['O' as int, 'K' as int]

  /** `%u`. */
  function Decimal(n: nat): (s: Bytes)
    ensures Clean(s) && forall i :: 0 <= i < |s| ==> 0x30 <= s[i] <= 0x39
    decreases n
  {
    if n < 10 then [0x30 + n] else Decimal(n / 10) + [0x30 + n % 10]
  }

  lemma EncodeIsClean(bs: Bytes)
    ensures Clean(Encode(bs))
  {
    EncodeIsPlain(bs);
  }

  /** Stop replies name the thread and carry all its registers. */
  function RegisterFields(regs: seq<word>, n: nat): Bytes
    requires n <= |regs| && n <= REGS_NUM
  {
    if n == 0 then []
    else
      RegisterFields(regs, n - 1) + TwoDigits(n - 1) + [':' as int]
      + Encode(Registers.FourBytes(regs[n - 1])) + [';' as int]
  }

  function StopHead(halter: nat): Bytes {
    Ascii("thread:") + Decimal(halter + 1) + Ascii(";core:") + Decimal(halter + 1) + Ascii(";")
  }

  /** How a continued or stepped program came to a stop, and the registers of all cores then. */
  datatype Stop = Stop(interrupted: bool, regs: seq<seq<word>>)

  predicate StopFits(stop: Stop, smp: nat) {
    |stop.regs| == smp && forall i :: 0 <= i < smp ==> |stop.regs[i]| >= REGS_NUM
  }

  lemma AsciiIsClean(s: string)
    requires forall i :: 0 <= i < |s| ==> (s[i] as int) < 0x100 && s[i] != '#'
    ensures Clean(Ascii(s))
  {}

  lemma {:induction false} RegisterFieldsAreClean(regs: seq<word>, n: nat)
    requires n <= |regs| && n <= REGS_NUM
    ensures Clean(RegisterFields(regs, n))
    decreases n
  {
    if n > 0 {
      RegisterFieldsAreClean(regs, n - 1);
      EncodeIsClean(Registers.FourBytes(regs[n - 1]));
    }
  }

  lemma StopHeadIsClean(halter: nat)
    ensures Clean(StopHead(halter))
  {
    AsciiIsClean("thread:");
    AsciiIsClean(";core:");
    AsciiIsClean(";");
  }

  /** build_v's loop over the registers. */
  method BuildRegisterFields(regs: seq<word>) returns (reply: Bytes)
    requires |regs| >= REGS_NUM
    ensures reply == RegisterFields(regs, REGS_NUM)
  {
    reply := [];
    for id := 0 to REGS_NUM
      invariant reply == RegisterFields(regs, id)
    {
      reply := reply + TwoDigits(id) + [':' as int];
      reply := reply + Encode(Registers.FourBytes(regs[id])) + [';' as int];
    }
  }

  /** The reply to a `v` packet, given who stopped the program. */
  function VReply(plan: VPacket.Plan, stop: Stop, halter: Option<nat>): Reply
    requires StopFits(stop, |stop.regs|) && (halter.Some? ==> halter.value < |stop.regs|)
  {
    match plan
    case NoCommand => Payload([])
    case AskFeatures => Payload(Ascii("s;c"))
    case Refuse => Payload(E)
    case AbortPlan => Aborts
    case OverrunPlan => Overruns
    case _ =>
      if stop.interrupted then Payload(Ascii("S02"))
      else if halter.None? then Payload(Ascii("T05swbreak:;"))
      else Payload(Ascii("T05swbreak:;") + StopHead(halter.value) + RegisterFields(stop.regs[halter.value], REGS_NUM))
  }

  lemma VReplyIsClean(plan: VPacket.Plan, stop: Stop, halter: Option<nat>)
    requires StopFits(stop, |stop.regs|) && (halter.Some? ==> halter.value < |stop.regs|)
    ensures CleanReply(VReply(plan, stop, halter))
  {
    AsciiIsClean("s;c");
    AsciiIsClean("S02");
    AsciiIsClean("T05swbreak:;");
    if halter.Some? {
      StopHeadIsClean(halter.value);
      RegisterFieldsAreClean(stop.regs[halter.value], REGS_NUM);
    }
  }

  /** The core reported: the one asked for, or the first that stands on a breakpoint. */
  ghost predicate Halts(halter: Option<nat>, plan: VPacket.Plan, stop: Stop, t: Table)
    requires StopFits(stop, |stop.regs|)
  {
    match plan
    case ContinueCore(core) => halter == Some(core)
    case StepCore(core) => halter == Some(core)
    case ContinueAll => FirstOn(halter, stop, t)
    case _ => true
  }

  /** Core `i` stands on a breakpoint. */
  predicate On(stop: Stop, t: Table, i: nat)
    requires StopFits(stop, |stop.regs|) && i < |stop.regs|
  {
    Planted(t, stop.regs[i][Cpu.PC])
  }

  ghost predicate FirstOn(halter: Option<nat>, stop: Stop, t: Table)
    requires StopFits(stop, |stop.regs|)
  {
    if halter.None? then forall i: nat :: i < |stop.regs| ==> !On(stop, t, i)
    else halter.value < |stop.regs| && On(stop, t, halter.value)
         && forall i: nat :: i < halter.value ==> !On(stop, t, i)
  }

  /**
    What an `M` does with its text: exactly its bytes are written if it is all digits; a text that is not
    is written as far as it goes, with anything after that, but nothing outside the range changes.
  */
  ghost predicate TextWritten(r: Reply, after: Bytes, mem: Bytes, addr: nat, length: nat, text: Bytes) {
    if |text| != 2 * length then r == Payload(E) && after == mem
    else
      && r == Payload(OK) && |after| == |mem|
      && (AllHex(text) && Fits(mem, addr, length) ==> after == Spliced(mem, addr, Decode(text)))
      && (forall i :: 0 <= i < |mem| && !(addr <= i < addr + length) ==> after[i] == mem[i])
  }

  ghost predicate MemWritten(r: Reply, after: Bytes, mem: Bytes, p: Parsed)
    requires p.Values? ==> |p.values| == 2
  {
    match p
    case Aborted => r == Aborts && after == mem
    case Refused => r == Payload(E) && after == mem
    case Values(v, rest) =>
      if v[0] + v[1] >= |mem| then r == Payload(E) && after == mem
      else if rest.None? then r == Aborts && after == mem
      else TextWritten(r, after, mem, v[0], v[1], CString(rest.value))
  }

  /** The reply to an `m`: memory from `addr` on, in hexadecimal, if the range ends below the last byte. */
  function MemReply(p: Parsed, mem: Bytes): Reply
    requires p.Values? ==> |p.values| == 2
  {
    match p
    case Values(v, _) => Payload(if v[0] + v[1] < |mem| then Encode(mem[v[0]..v[0] + v[1]]) else E)
    case Refused => Payload(E)
    case Aborted => Aborts
  }

  lemma SplicedIsWritten(mem: Bytes, addr: nat, data: Bytes, text: Bytes)
    requires Fits(mem, addr, |data|) && |text| == 2 * |data| && (AllHex(text) ==> data == Decode(text))
    ensures TextWritten(Payload(OK), Spliced(mem, addr, data), mem, addr, |data|, text)
  {}

  /** Written by `M`, bytes are read back by `m` as the text that wrote them, and all others as before. */
  lemma WriteThenRead(r: Reply, after: Bytes, mem: Bytes, addr: nat, data: Bytes)
    requires addr + |data| < |mem| <= TWO_TO_32
    requires
      var packet := Commands.Written([addr, |data|], WriteMemArgs(), Some(Encode(data)));
      MemWritten(r, after, mem, ParseArgs(Some(packet), WriteMemArgs()))
    ensures r == Payload(OK) && after == Spliced(mem, addr, data)
    ensures
      var packet := Commands.Written([addr, |data|], ReadMemArgs(), None);
      MemReply(ParseArgs(Some(packet), ReadMemArgs()), after) == Payload(Encode(data))
  {
    ArgsRoundTrip([addr, |data|], WriteMemArgs(), Some(Encode(data)));
    ArgsRoundTrip([addr, |data|], ReadMemArgs(), None);
    DecodeEncode(data);
    HexHasNoNul(Encode(data));
  }

  lemma {:induction false} HexHasNoNul(s: Bytes)
    requires AllHex(s)
    ensures CString(s) == s
    decreases |s|
  {
    if s != [] { HexHasNoNul(s[1..]); }
  }

  // ----- queries

  /** The ids 1 to `n - 1`, each with a comma behind it. */
  function Listed(n: nat): (s: Bytes) {
    if n <= 1 then [] else Listed(n - 1) + (Decimal(n - 1) + [',' as int])
  }

  lemma {:induction false} ListedIsClean(n: nat)
    ensures Clean(Listed(n))
  {
    if n > 1 { ListedIsClean(n - 1); }
  }

  /** The reply to a query other than the extra information on a thread. */
  function QueryReply(command: Bytes, selected: nat, smp: nat): Bytes {
    if command == Ascii("qSupported") then Ascii("swbreak+;vCont+;QStartNoAckMode+")
    else if command == Ascii("qfThreadInfo") then ['m' as int] + Listed(smp) + Decimal(if smp == 0 then 1 else smp)
    else if command == Ascii("qsThreadInfo") then ['l' as int]
    else if command == Ascii("qC") then ['Q' as int, 'C' as int] + Decimal(selected + 1)
    else if command == Ascii("qSymbol") then OK
    else []
  }

  lemma QueryReplyIsClean(command: Bytes, selected: nat, smp: nat)
    ensures Clean(QueryReply(command, selected, smp))
  {
    AsciiIsClean("swbreak+;vCont+;QStartNoAckMode+");
    ListedIsClean(smp);
  }

  predicate IsExtra(command: Bytes) {
    var prefix := Ascii("qThreadExtraInfo"); |command| >= 16 && command[..16] == prefix
  }

  /** The description of a thread, in hexadecimal. */
  function ExtraReply(p: Parsed, names: seq<Bytes>, otherwise: Bytes): Reply
    requires p.Values? ==> |p.values| == 1
  {
    match p
    case Values(v, _) => Payload(if v[0] == 0 || v[0] > |names| then E else Encode(names[v[0] - 1]) + otherwise)
    case Refused => Payload(E)
    case Aborted => Aborts
  }

  lemma ExtraReplyIsClean(p: Parsed, names: seq<Bytes>, otherwise: Bytes)
    requires (p.Values? ==> |p.values| == 1) && Clean(otherwise)
    ensures CleanReply(ExtraReply(p, names, otherwise))
  {
    if p.Values? && 0 < p.values[0] <= |names| { EncodeIsClean(names[p.values[0] - 1]); }
  }

  /** A query after its first token was cut off with a NUL. */
  function Severed(s: Bytes): (r: Bytes)
    ensures |r| == |s|
  {
    var k := TokenLen(s, Colon());
    if k < |s| then s[k := 0] else s
  }

  /** The reply to a query packet. */
  function QueryPacket(s: Bytes, names: seq<Bytes>, selected: nat): Reply {
    var j := TokenLen(Severed(s), Comma());
    var command := CString(Severed(s)[..j]);
    var answer := QueryReply(command, selected, |names|);
    if IsExtra(command) then ExtraReply(ParseArgs(Beyond(Severed(s), j), [Arg32(None)]), names, answer)
    else Payload(answer)
  }

  /** So a command is recognised in front of a comma as well as in front of a colon. */
  lemma QueryBeforeComma(names: seq<Bytes>, selected: nat)
    ensures QueryPacket(Ascii("qC,1"), names, selected) == Payload(['Q' as int, 'C' as int] + Decimal(selected + 1))
  {
    var s := Ascii("qC,1");
    assert s == ['q' as int, 'C' as int, ',' as int, '1' as int];
    assert TokenLen(s, Colon()) == 4;
    assert TokenLen(s, Comma()) == 2;
    assert s[..2] == Ascii("qC");
    CStringOfTwo(s[0], s[1]);
    assert Ascii("qC")[1] != Ascii("qSupported")[1];
    assert Ascii("qC")[1] != Ascii("qfThreadInfo")[1] && Ascii("qC")[1] != Ascii("qsThreadInfo")[1];
  }

  lemma CStringOfTwo(a: byte, b: byte)
    requires a != 0 && b != 0
    ensures CString([a, b]) == [a, b]
  {
    assert [a, b][1..] == [b] && [b][1..] == [];
    assert CString([b]) == [b] + CString([]);
  }

  /** The list of all thread ids. */
  method ThreadList(smp: nat) returns (reply: Bytes)
    ensures reply == ['m' as int] + Listed(smp) + Decimal(if smp == 0 then 1 else smp)
  {
    var list: Bytes := [];
    var i := 1;
    while i < smp
      invariant 1 <= i && (i <= smp || (i == 1 && smp == 0))
      invariant list == Listed(i)
    {
      list := list + (Decimal(i) + [',' as int]);
      i := i + 1;
    }
    reply := ['m' as int] + list + Decimal(i);
  }

  /** The comparisons at the end of build_q. */
  method Answer(command: Bytes, selected: nat, smp: nat) returns (reply: Bytes)
    ensures reply == QueryReply(command, selected, smp)
  {
    if command == Ascii("qSupported") { return Ascii("swbreak+;vCont+;QStartNoAckMode+"); }
    if command == Ascii("qfThreadInfo") { reply := ThreadList(smp); return; }
    if command == Ascii("qsThreadInfo") { return ['l' as int]; }
    if command == Ascii("qC") { return ['Q' as int, 'C' as int] + Decimal(selected + 1); }
    if command == Ascii("qSymbol") { return OK; }
    return [];
  }

  /** The bytes of a text of twice that many characters; what a bad character leaves out is arbitrary. */
  method TextBytes(text: Bytes, length: nat) returns (bytes: Bytes)
    requires |text| == 2 * length && CString(text) == text
    ensures |bytes| == length && (AllHex(text) ==> bytes == Decode(text))
  {
    var data := new byte[length];
    var ret := HexStrToBytes(data, text);
    assert Padded(text) == text;
    bytes := data[..];
    assert AllHex(text) ==> bytes == Decode(text) + Zeros(0);
  }

  predicate StartsNoAck(payload: Bytes) {
    CString(payload[..TokenLen(payload, Colon())]) == Ascii("QStartNoAckMode")
  }

  /** The mode of acknowledgements after a packet. */
  function NextMode(payload: Bytes, ack: bool): bool {
    ack && !(payload != [] && payload[0] == 'Q' as int && StartsNoAck(payload))
  }

  /**
    The stub's conversation with its own rule for acknowledgements: all payloads are dispatched, in order
    and nothing else happens, if and only if every packet ends with a read and is well cut.
  */
  lemma StubConversation(payloads: seq<Bytes>, chunks: seq<Bytes>, first: byte)
    requires Conversation.AllClean(payloads) && Conversation.NoneEmpty(chunks)
    requires Concat(chunks) == Conversation.Stream(payloads, true, NextMode)
    ensures Conversation.Serve(Parser.Fresh(first), [], chunks, true, NextMode) == Conversation.Dispatches(payloads)
            <==> Conversation.ReadsFit(payloads, chunks, true, NextMode)
  {
    Conversation.ConversationIsServed(payloads, chunks, true, first, NextMode);
  }

  // ----- what every command does, as relations of the state before and after

  /** The registers of the selected core, guest memory, the breakpoints, the selected core and the mode. */
  datatype State = State(core: seq<word>, mem: Bytes, table: Table, selected: nat, ack: bool)

  /** p: the register in hexadecimal. */
  predicate RegRead(args: Option<Bytes>, r: Reply, core: seq<word>)
    requires |core| == Cpu.REG_NUMS
  {
    r == match ParseArgs(args, [Arg32(None)])
         case Values(v, _) => Payload(if v[0] >= REGS_NUM then E else Encode(Registers.FourBytes(core[v[0]])))
         case Refused => Payload(E)
         case Aborted => Aborts
  }

  /** P: the low 32 bits of the value go to the register. */
  predicate RegWritten(args: Option<Bytes>, r: Reply, core: seq<word>, core': seq<word>)
    requires |core| == Cpu.REG_NUMS
  {
    var p := ParseArgs(args, WriteRegArgs());
    && (r == Aborts <==> p.Aborted?)
    && (r == Payload(OK) <==> p.Values? && p.values[0] < REGS_NUM)
    && (r == Payload(OK) || r == Payload(E) || r == Aborts)
    && core' == if r == Payload(OK) then core[p.values[0] := p.values[1] % TWO_TO_32] else core
  }

  /** g: the register block. */
  predicate RegsRead(r: Reply, core: seq<word>)
    requires |core| == Cpu.REG_NUMS
  {
    r == Payload(Encode(Registers.Block(core[..REGS_NUM])))
  }

  /** G: exactly the registers with all-digit fields change, if the text has the right length. */
  predicate RegsWritten(args: Bytes, r: Reply, core: seq<word>, core': seq<word>)
    requires |core| == Cpu.REG_NUMS
  {
    var text := CString(args);
    if |text| == 8 * REGS_NUM then
      && r == Payload(OK) && |core'| == |core|
      && core'[..REGS_NUM] == Registers.Written(core[..REGS_NUM], text) && core'[REGS_NUM..] == core[REGS_NUM..]
    else
      r == Payload(E) && core' == core
  }

  /** Q: acknowledgements are turned off by exactly one command, and never on. */
  predicate ModeSet(payload: Bytes, r: Reply, ack: bool, ack': bool) {
    var off := StartsNoAck(payload);
    ack' == (ack && !off) && r == Payload(if off then OK else [])
  }

  /** H: `Hg0` selects the first core, `Hgn` core n - 1. */
  predicate CoreSelected(payload: Bytes, r: Reply, smp: nat, sel: nat, sel': nat) {
    if |payload| < 2 || payload[0] != 'H' as int || payload[1] != 'g' as int then r == Payload([]) && sel' == sel
    else match Number32(payload[2..])
      case None => r == Payload(E) && sel' == sel
      case Some(id) =>
        if id > smp then r == Payload(E) && sel' == sel
        else r == Payload(OK) && sel' == if id == 0 then 0 else id - 1
  }

  /** Z: a software breakpoint of four bytes, inside memory, is inserted while there is a free slot. */
  predicate PointInserted(p: Parsed, r: Reply, t: Table, mem: Bytes, t': Table, mem': Bytes)
    requires p.Values? ==> |p.values| == 3
  {
    var good := p.Values? && p.values[0] == 0 && p.values[1] < |mem| && p.values[2] == BRKPT_SIZE
                && FirstEmpty(t, 0) < |t|;
    if p.Aborted? then r == Aborts && t' == t && mem' == mem
    else if !good then r == Payload(E) && t' == t && mem' == mem
    else if p.values[1] + 4 > |mem| then r == Overruns && t' == t && mem' == mem
    else r == Payload(OK) && (t', mem', Inserted) == Insert(t, mem, p.values[1])
  }

  /** z: the breakpoint is removed if it is planted. */
  predicate PointRemoved(p: Parsed, r: Reply, t: Table, mem: Bytes, t': Table, mem': Bytes)
    requires p.Values? ==> |p.values| == 3
  {
    var good := p.Values? && p.values[0] == 0 && p.values[1] < |mem| && p.values[2] == BRKPT_SIZE
                && Planted(t, p.values[1]);
    if p.Aborted? then r == Aborts && t' == t && mem' == mem
    else if !good then r == Payload(E) && t' == t && mem' == mem
    else if p.values[1] + 4 > |mem| then r == Overruns && t' == t && mem' == mem
    else r == Payload(OK) && (t', mem', Removed) == Remove(t, mem, p.values[1])
  }

  /** v: the reply to the plan, for the core that halts. */
  ghost predicate VAnswered(plan: VPacket.Plan, stop: Stop, r: Reply, t: Table)
    requires StopFits(stop, |stop.regs|)
  {
    exists halter: Option<nat> ::
      && (halter.Some? ==> halter.value < |stop.regs|)
      && (plan.ContinueAll? || plan.ContinueCore? || plan.StepCore? ==> Halts(halter, plan, stop, t))
      && r == VReply(plan, stop, halter)
  }

  /**
    What the stub does with a packet: by its command character, the reply and everything that changes. The
    plan of a `v` packet is a parameter here, because it depends on what lies behind the packet in the buffer.
  */
  ghost predicate Answered(
    payload: Bytes, plan: VPacket.Plan, names: seq<Bytes>, stop: Stop, r: Reply, s: State, s': State)
    requires |s.core| == Cpu.REG_NUMS && StopFits(stop, |stop.regs|)
  {
    if payload == [] then r == Payload([]) && s' == s
    else
      var args := Some(payload[1..]);
      match payload[0] as char
      case 'p' => s' == s && RegRead(args, r, s.core)
      case 'P' => s' == s.(core := s'.core) && RegWritten(args, r, s.core, s'.core)
      case 'q' => s' == s && r == QueryPacket(payload, names, s.selected)
      case 'Q' => s' == s.(ack := s'.ack) && ModeSet(payload, r, s.ack, s'.ack)
      case '?' => s' == s && r == Payload(Ascii("S05"))
      case 'm' => s' == s && r == MemReply(ParseArgs(args, ReadMemArgs()), s.mem)
      case 'M' => s' == s.(mem := s'.mem) && MemWritten(r, s'.mem, s.mem, ParseArgs(args, WriteMemArgs()))
      case 'G' => s' == s.(core := s'.core) && RegsWritten(payload[1..], r, s.core, s'.core)
      case 'g' => s' == s && RegsRead(r, s.core)
      case 'T' => s' == s && r == Payload(OK)
      case 'z' =>
        && s' == s.(table := s'.table, mem := s'.mem)
        && PointRemoved(ParseArgs(args, RemoveArgs()), r, s.table, s.mem, s'.table, s'.mem)
      case 'Z' =>
        && s' == s.(table := s'.table, mem := s'.mem)
        && PointInserted(ParseArgs(args, InsertArgs()), r, s.table, s.mem, s'.table, s'.mem)
      case 'H' => s' == s.(selected := s'.selected) && CoreSelected(payload, r, |names|, s.selected, s'.selected)
      case 'v' => s' == s && VAnswered(plan, stop, r, s.table)
      case _ => s' == s && r == Payload([])
  }

  /** The mode of acknowledgements follows its own rule. */
  lemma ModeFollows(payload: Bytes, plan: VPacket.Plan, names: seq<Bytes>, stop: Stop, r: Reply, s: State, s': State)
    requires |s.core| == Cpu.REG_NUMS && StopFits(stop, |stop.regs|)
    requires Answered(payload, plan, names, stop, r, s, s')
    ensures s'.ack == NextMode(payload, s.ack)
  {}

  class Stub {
    /** The packet received, from the buffer's bounds; `input[end]` is its `#`. */
    const input: array<byte>
    const start: nat
    const end: nat
    const cores: seq<array<word>>
    const vmem: Vmem
    const table: BreakpointTable
    var selected: nat
    var ack: bool

    constructor (input: array<byte>, start: nat, end: nat, cores: seq<array<word>>, table: BreakpointTable, ack: bool)
      ensures this.input == input && this.start == start && this.end == end && this.cores == cores
      ensures this.table == table && vmem == table.vmem && selected == 0 && this.ack == ack
    {
      this.input, this.start, this.end, this.cores := input, start, end, cores;
      this.table, this.vmem, this.selected, this.ack := table, table.vmem, 0, ack;
    }

    /** A packet with a command character, 44 registers to every core, and memory of at most 4 GB. */
    ghost predicate Valid()
      reads this
    {
      && start < end < input.Length
      && selected < |cores| && (forall i :: 0 <= i < |cores| ==> cores[i].Length == Cpu.REG_NUMS)
      && table.vmem == vmem && input != vmem.bytes && vmem.bytes.Length <= TWO_TO_32
    }

    /** The state, with the registers of core `k`. */
    ghost function View(k: nat): State
      requires k < |cores|
      reads this, cores[k], vmem.bytes, table.slots
    {
      State(cores[k][..], vmem.bytes[..], table.slots[..], selected, ack)
    }

    /** What follows the command character. */
    ghost function Args(): Option<Bytes>
      requires start < end < input.Length
      reads input
    {
      Rest(input[..], start + 1, end)
    }

    /** A row of extractions from behind the command character. */
    method ExtractArgs(args: seq<Arg>) returns (p: Parsed, next: nat)
      requires start < end < input.Length
      modifies input
      ensures p == ParseArgs(old(Args()), args)
      ensures start + 1 <= next <= end + 1
      ensures p.Values? ==> p.rest == Rest(input[..], next, end)
    {
      p, next := Extract(input, end, start + 1, args);
    }

    method ReadReg() returns (r: Reply)
      requires Valid()
      modifies input
      ensures CleanReply(r) && RegRead(old(Args()), r, cores[selected][..])
    {
      var p, _ := ExtractArgs([Arg32(None)]);
      match p {
        case Values(v, _) =>
          if v[0] >= REGS_NUM { return Payload(E); }
          EncodeIsClean(Registers.FourBytes(cores[selected][v[0]]));
          return Payload(Encode(Registers.FourBytes(cores[selected][v[0]])));
        case Refused => return Payload(E);
        case Aborted => return Aborts;
      }
    }

    method WriteReg() returns (r: Reply)
      requires Valid()
      modifies input, cores[selected]
      ensures CleanReply(r) && RegWritten(old(Args()), r, old(cores[selected][..]), cores[selected][..])
    {
      var p, _ := ExtractArgs(WriteRegArgs());
      match p {
        case Values(v, _) =>
          if v[0] >= REGS_NUM { return Payload(E); }
          var core: array<word> := cores[selected];
          core[v[0]] := v[1] % TWO_TO_32;
          return Payload(OK);
        case Refused => return Payload(E);
        case Aborted => return Aborts;
      }
    }

    method ReadRegs() returns (r: Reply)
      requires Valid()
      ensures CleanReply(r) && RegsRead(r, cores[selected][..])
    {
      var text := Registers.BuildReadRegs(cores[selected], REGS_NUM);
      EncodeIsClean(Registers.Block(cores[selected][..REGS_NUM]));
      r := Payload(text);
    }

    method WriteRegs() returns (r: Reply)
      requires Valid()
      modifies input, cores[selected]
      ensures CleanReply(r)
      ensures RegsWritten(old(input[..])[start + 1..end], r, old(cores[selected][..]), cores[selected][..])
    {
      var str := ExtractRest(input, end, start + 1);
      var ok := Registers.BuildWriteRegs(cores[selected], REGS_NUM, str);
      r := Payload(if ok then OK else E);
    }

    /** The bounds check, in 64-bit arithmetic. */
    method InRange(addr: nat, length: nat) returns (ok: bool)
      requires Valid() && addr < LONG_MAX && length < LONG_MAX
      ensures ok == (addr + length < vmem.bytes.Length)
    {
      CheckIsExact(addr, length, vmem.bytes.Length);
      ok := InMemory(addr, length, vmem.bytes.Length);
    }

    method ReadMem() returns (r: Reply)
      requires Valid()
      modifies input
      ensures CleanReply(r) && r == MemReply(ParseArgs(old(Args()), ReadMemArgs()), vmem.bytes[..])
    {
      AddressBound(Args(), ReadMemArgs());
      var p, _ := ExtractArgs(ReadMemArgs());
      match p {
        case Values(v, _) =>
          var inside := InRange(v[0], v[1]);
          if !inside { return Payload(E); }
          r := ReadMemText(v[0], v[1]);
        case Refused => return Payload(E);
        case Aborted => return Aborts;
      }
    }

    method ReadMemText(addr: nat, length: nat) returns (r: Reply)
      requires Valid() && addr + length < vmem.bytes.Length
      ensures CleanReply(r) && r == Payload(Encode(vmem.bytes[..][addr..addr + length]))
    {
      var mem := vmem.ReadBlock(Low32(addr), length);
      EncodeIsClean(mem);
      r := Payload(Encode(mem));
    }

    /** build_M. */
    method WriteMem() returns (r: Reply)
      requires Valid()
      modifies input, vmem.bytes
      ensures MemWritten(r, vmem.bytes[..], old(vmem.bytes[..]), ParseArgs(old(Args()), WriteMemArgs()))
      ensures CleanReply(r)
    {
      AddressBound(Args(), WriteMemArgs());
      var p, cursor := ExtractArgs(WriteMemArgs());
      match p {
        case Values(v, rest) =>
          var inside := InRange(v[0], v[1]);
          if !inside { return Payload(E); }
          if cursor == end + 1 { return Aborts; }
          r := WriteMemText(v[0], v[1], cursor);
        case Refused => return Payload(E);
        case Aborted => return Aborts;
      }
    }

    /** The end of build_M, with the cursor at the text. */
    method WriteMemText(addr: nat, length: nat, cursor: nat) returns (r: Reply)
      requires Valid() && cursor <= end && addr + length < vmem.bytes.Length
      modifies input, vmem.bytes
      ensures TextWritten(r, vmem.bytes[..], old(vmem.bytes[..]), addr, length, CString(old(input[..])[cursor..end]))
    {
      ghost var mem := vmem.bytes[..];
      var text := ExtractRest(input, end, cursor);
      if |text| != 2 * length { return Payload(E); }
      var data := TextBytes(text, length);
      SplicedIsWritten(mem, addr, data, text);
      vmem.WriteBlock(Low32(addr), data);
      return Payload(OK);
    }

    /** build_Q: acknowledgements are turned off by exactly one command, and never on. */
    method SetMode() returns (r: Reply)
      requires Valid()
      modifies this`ack, input
      ensures CleanReply(r) && ModeSet(old(input[..])[start..end], r, old(ack), ack)
    {
      var command, _ := ExtractStr(input, end, start, Colon());
      if command == Ascii("QStartNoAckMode") {
        ack := false;
        return Payload(OK);
      }
      return Payload([]);
    }

    /** The first token of build_q, up to `:`, for the NUL it writes. */
    method CutCommand()
      requires Valid()
      modifies input
      ensures input[..][start..end] == Severed(old(input[..])[start..end])
    {
      ghost var was := input[..];
      var command, next := ExtractStr(input, end, start, Colon());
      CutSlice(was, input[..], start, next, end);
    }

    /** The second token, up to `,`, from the same place: both names now stand for what is left of it. */
    method CutExtra() returns (command: Bytes, cursor: nat)
      requires Valid()
      modifies input
      ensures start < cursor <= end + 1
      ensures
        var s := old(input[..])[start..end];
        var j := TokenLen(s, Comma());
        command == CString(s[..j]) && Rest(input[..], cursor, end) == Beyond(s, j)
    {
      ghost var was := input[..];
      command, cursor := ExtractStr(input, end, start, Comma());
      CutSlice(was, input[..], start, cursor, end);
    }

    /**
      build_q, where `names` describe the cores. The packet is cut at its first `:` and then, from the start
      again, at its first `,`; the comparisons see what both cuts have left.
    */
    method Query(names: seq<Bytes>) returns (r: Reply)
      requires Valid() && |names| == |cores|
      modifies input
      ensures CleanReply(r) && r == QueryPacket(old(input[..])[start..end], names, selected)
    {
      CutCommand();
      var command, cursor := CutExtra();
      var answer := Answer(command, selected, |cores|);
      QueryReplyIsClean(command, selected, |cores|);
      if !IsExtra(command) { return Payload(answer); }
      r := ThreadExtra(cursor, names, answer);
    }

    method ThreadExtra(cursor: nat, names: seq<Bytes>, answer: Bytes) returns (r: Reply)
      requires Valid() && start <= cursor <= end + 1 && Clean(answer)
      modifies input
      ensures CleanReply(r)
      ensures r == ExtraReply(ParseArgs(old(Rest(input[..], cursor, end)), [Arg32(None)]), names, answer)
    {
      var p, _ := Extract(input, end, cursor, [Arg32(None)]);
      ExtraReplyIsClean(p, names, answer);
      match p {
        case Values(v, _) =>
          if v[0] == 0 || v[0] > |names| { return Payload(E); }
          return Payload(Encode(names[v[0] - 1]) + answer);
        case Refused => return Payload(E);
        case Aborted => return Aborts;
      }
    }

    /** A 32-bit number from the cursor to the end. */
    method ExtractId(cursor: nat) returns (id: Option<nat>)
      requires Valid() && start <= cursor <= end
      modifies input
      ensures id == Number32(old(input[..])[cursor..end])
    {
      ghost var s := input[..][cursor..end];
      var next;
      id, next := ExtractUint32(input, end, cursor, None);
      assert TokenLen(s, None) == |s| && s[..|s|] == s;
    }

    /** build_H: `Hg0` selects the first core, `Hgn` core n - 1. */
    method SelectCore() returns (r: Reply)
      requires Valid()
      modifies this`selected, input
      ensures Valid() && CleanReply(r)
      ensures CoreSelected(old(input[..])[start..end], r, |cores|, old(selected), selected)
    {
      ghost var was := input[..];
      ghost var s := was[start..end];
      var command := ExtractRest(input, end, start);
      CStringPrefix(s);
      if |command| < 2 || command[0] != 'H' as int || command[1] != 'g' as int { return Payload([]); }
      assert input[..][start + 2..end] == was[start + 2..end] == s[2..];
      var id := ExtractId(start + 2);
      if id.None? { return Payload(E); }
      if id.value == 0 {
        selected := 0;
      } else if id.value - 1 >= |cores| {
        return Payload(E);
      } else {
        selected := id.value - 1;
      }
      return Payload(OK);
    }

    /** build_Z: a software breakpoint of four bytes, inside memory, is inserted while there is a free slot. */
    method InsertPoint() returns (r: Reply)
      requires Valid()
      modifies input, table.slots, vmem.bytes
      ensures CleanReply(r)
      ensures PointInserted(ParseArgs(old(Args()), InsertArgs()), r,
                            old(table.slots[..]), old(vmem.bytes[..]), table.slots[..], vmem.bytes[..])
    {
      var p, _ := ExtractArgs(InsertArgs());
      match p {
        case Values(v, _) =>
          if v[1] >= vmem.bytes.Length { return Payload(E); }
          if v[2] != BRKPT_SIZE { return Payload(E); }
          if v[0] != 0 { return Payload(E); }
          if FirstEmpty(table.slots[..], 0) == table.slots.Length { return Payload(E); }
          if v[1] + 4 > vmem.bytes.Length { return Overruns; }
          var ret := table.InsertBreakpoint(v[1]);
          if ret != Inserted { return Payload(E); }
          return Payload(OK);
        case Refused => return Payload(E);
        case Aborted => return Aborts;
      }
    }

    /** build_z: the breakpoint is removed if it is planted. */
    method RemovePoint() returns (r: Reply)
      requires Valid()
      modifies input, table.slots, vmem.bytes
      ensures CleanReply(r)
      ensures PointRemoved(ParseArgs(old(Args()), RemoveArgs()), r,
                           old(table.slots[..]), old(vmem.bytes[..]), table.slots[..], vmem.bytes[..])
    {
      var p, _ := ExtractArgs(RemoveArgs());
      match p {
        case Values(v, _) =>
          if v[1] >= vmem.bytes.Length { return Payload(E); }
          if v[2] != BRKPT_SIZE { return Payload(E); }
          if v[0] != 0 { return Payload(E); }
          var i := table.FindBreakpoint(v[1]);
          if i < table.slots.Length && v[1] + 4 > vmem.bytes.Length { return Overruns; }
          var ret := table.RemoveBreakpoint(v[1]);
          if ret != Removed { return Payload(E); }
          return Payload(OK);
        case Refused => return Payload(E);
        case Aborted => return Aborts;
      }
    }

    /** The first core on a breakpoint. */
    method FindHalter(stop: Stop) returns (halter: Option<nat>)
      requires Valid() && StopFits(stop, |cores|)
      ensures FirstOn(halter, stop, table.slots[..])
    {
      var pcs: seq<nat> := seq(|cores|, i requires 0 <= i < |cores| => stop.regs[i][Cpu.PC]);
      var hart := table.BreakpointHart(pcs);
      assert forall i: nat :: i < |cores| ==> (On(stop, table.slots[..], i) <==> Planted(table.slots[..], pcs[i]));
      halter := if hart == -1 then None else Some(hart);
    }

    /** build_v, where `stop` is how a continued or stepped program came to a stop. */
    method BuildV(stop: Stop) returns (r: Reply, halter: Option<nat>)
      requires Valid() && StopFits(stop, |cores|)
      modifies input
      ensures
        var plan := VPacket.Plans(old(input[..]), start, end, |cores|, selected);
        && (halter.Some? ==> halter.value < |cores|)
        && (plan.ContinueAll? || plan.ContinueCore? || plan.StepCore? ==> Halts(halter, plan, stop, table.slots[..]))
        && r == VReply(plan, stop, halter) && CleanReply(r) && VAnswered(plan, stop, r, table.slots[..])
    {
      var plan := VPacket.DecidePlan(input, start, end, |cores|, selected);
      VPacket.PlannedCore(old(input[..]), start, end, |cores|, selected);
      halter := None;
      if plan.ContinueCore? || plan.StepCore? { halter := Some(plan.core); }
      if plan.ContinueAll? { halter := FindHalter(stop); }
      VReplyIsClean(plan, stop, halter);
      r := VReply(plan, stop, halter);
    }

    /** What a builder answers and changes is what its packet asks for. */
    twostate predicate Serves(names: seq<Bytes>, stop: Stop, r: Reply)
      requires old(Valid()) && StopFits(stop, |stop.regs|)
      reads this, input, cores, vmem.bytes, table.slots
    {
      var plan := VPacket.Plans(old(input[..]), start, end, |cores|, old(selected));
      && CleanReply(r)
      && Answered(old(input[..])[start..end], plan, names, stop, r, old(View(selected)), View(old(selected)))
    }

    method BuildForRegisters(names: seq<Bytes>, stop: Stop) returns (r: Reply)
      requires Valid() && StopFits(stop, |stop.regs|) && input[start] as char in {'p', 'P', 'g', 'G'}
      modifies input, cores[selected]
      ensures Serves(names, stop, r)
    {
      match input[start] as char {
        case 'p' => r := ReadReg();
        case 'P' => r := WriteReg();
        case 'G' => r := WriteRegs();
        case 'g' => r := ReadRegs();
      }
    }

    method BuildForMemory(names: seq<Bytes>, stop: Stop) returns (r: Reply)
      requires Valid() && StopFits(stop, |stop.regs|) && input[start] as char in {'m', 'M', 'z', 'Z'}
      modifies input, table.slots, vmem.bytes
      ensures Serves(names, stop, r)
    {
      match input[start] as char {
        case 'm' => r := ReadMem();
        case 'M' => r := WriteMem();
        case 'z' => r := RemovePoint();
        case 'Z' => r := InsertPoint();
      }
    }

    method BuildForSession(names: seq<Bytes>, stop: Stop) returns (r: Reply)
      requires Valid() && |names| == |cores| && StopFits(stop, |cores|)
      requires input[start] as char in {'q', 'Q', 'H', 'v'}
      modifies this`ack, this`selected, input
      ensures Serves(names, stop, r)
    {
      match input[start] as char {
        case 'q' => r := Query(names);
        case 'Q' => r := SetMode();
        case 'H' => r := SelectCore();
        case 'v' =>
          var halter;
          r, halter := BuildV(stop);
      }
    }

    /** The builder of the command character; an unknown one gets an empty reply. */
    method BuildCommand(names: seq<Bytes>, stop: Stop) returns (r: Reply)
      requires Valid() && |names| == |cores| && StopFits(stop, |cores|)
      modifies this`ack, this`selected, input, cores[selected], table.slots, vmem.bytes
      ensures Serves(names, stop, r)
    {
      match input[start] as char {
        case 'p' | 'P' | 'g' | 'G' => r := BuildForRegisters(names, stop);
        case 'm' | 'M' | 'z' | 'Z' => r := BuildForMemory(names, stop);
        case 'q' | 'Q' | 'H' | 'v' => r := BuildForSession(names, stop);
        case '?' =>
          AsciiIsClean("S05");
          r := Payload(Ascii("S05"));
        case 'T' => r := Payload(OK);
        case _ => r := Payload([]);
      }
    }

    /** It also turns acknowledgements off, for good, on the one command for that. */
    method Build(names: seq<Bytes>, stop: Stop) returns (r: Reply)
      requires Valid() && |names| == |cores| && StopFits(stop, |cores|)
      modifies this`ack, this`selected, input, cores[selected], table.slots, vmem.bytes
      ensures Serves(names, stop, r)
      ensures ack == NextMode(old(input[..])[start..end], old(ack))
    {
      r := BuildCommand(names, stop);
      ghost var plan := VPacket.Plans(old(input[..]), start, end, |cores|, old(selected));
      ModeFollows(old(input[..])[start..end], plan, names, stop, r, old(View(selected)), View(old(selected)));
    }

    /** The payload of the reply; an empty packet gets an empty one. */
    method BuildPayload(names: seq<Bytes>, stop: Stop) returns (r: Reply)
      requires start < end ==> Valid()
      requires start == end < input.Length || start < end
      requires |names| == |cores| && StopFits(stop, |cores|)
      modifies this`ack, this`selected, input, if selected < |cores| then {cores[selected]} else {},
               table.slots, vmem.bytes
      ensures (ack ==> old(ack)) && CleanReply(r)
      ensures start == end ==> r == Payload([]) && selected == old(selected) && ack == old(ack)
      ensures start == end ==>
                table.slots[..] == old(table.slots[..]) && vmem.bytes[..] == old(vmem.bytes[..])
                && forall i :: 0 <= i < |cores| ==> cores[i][..] == old(cores[i][..])
      ensures start < end ==> Serves(names, stop, r)
    {
      if start == end { return Payload([]); }
      r := Build(names, stop);
    }

    /**
      sad_builder_build_resp into an empty output buffer. Whatever the packet, a reply that is sent is read
      back by a fresh parser as exactly the payload built, in the mode the packet came in and in the mode
      it leaves.
    */
    method BuildResp(out: Buffer, names: seq<Bytes>, stop: Stop, limit: nat) returns (r: Reply, sent: bool)
      requires start < end ==> Valid()
      requires start == end < input.Length || start < end
      requires |names| == |cores| && StopFits(stop, |cores|)
      requires out.Valid() && out.Contents() == [] && out.data != input && out.data != vmem.bytes
      modifies this`ack, this`selected, input, if selected < |cores| then {cores[selected]} else {},
               table.slots, vmem.bytes, out, out.data
      ensures ack ==> old(ack)
      ensures start == end ==> r == Payload([]) && selected == old(selected) && ack == old(ack)
      ensures start == end ==>
                table.slots[..] == old(table.slots[..]) && vmem.bytes[..] == old(vmem.bytes[..])
                && forall i :: 0 <= i < |cores| ==> cores[i][..] == old(cores[i][..])
      ensures start < end ==>
                var plan := VPacket.Plans(old(input[..]), start, end, |cores|, old(selected));
                Answered(old(input[..])[start..end], plan, names, stop, r, old(View(selected)), View(old(selected)))
      ensures sent ==> r.Payload? && out.Valid() && out.Contents() == Framed(r.bytes, old(ack))
      ensures sent ==> forall mode, first :: mode == old(ack) || mode == ack ==>
                         Delimits(Parser.Parse(Parser.Fresh(first), out.Contents(), mode), out.Contents(), r.bytes)
    {
      var was := ack;
      r := BuildPayload(names, stop);
      if !r.Payload? { return r, false; }
      ghost var ok;
      sent, ok := FrameReply(out, r.bytes, was, limit);
      if sent { ReplyIsReadBack(r.bytes, was, ack); }
    }
  }

  /** A clean payload is read back, also when acknowledgements were turned off while it was built. */
  lemma ReplyIsReadBack(payload: Bytes, built: bool, now: bool)
    requires Clean(payload) && (now ==> built)
    ensures forall mode, first :: mode == built || mode == now ==>
              Delimits(Parser.Parse(Parser.Fresh(first), Framed(payload, built), mode), Framed(payload, built), payload)
  {
    forall mode, first | mode == built || mode == now
      ensures Delimits(Parser.Parse(Parser.Fresh(first), Framed(payload, built), mode), Framed(payload, built), payload)
    {
      FrameRoundTrip(payload, built, mode, first);
    }
  }

  /** A piece that an append kept or, out of memory, did not. */
  function Kept(piece: Bytes, ok: bool): Bytes { if ok then piece else [] }

  /** What is in the buffer behind a frame of which only some appends succeeded. */
  function FramedIf(payload: Bytes, ack: bool, ok: seq<bool>): Bytes
    requires |ok| == 4
  {
    var head := if ack then [PLUS, DOLLAR] else [DOLLAR];
    Kept(head, ok[0]) + Kept(payload, ok[1]) + Kept([HASH], ok[2])
    + Kept(TwoDigits(Parser.Checksum(Kept(payload, ok[1]))), ok[3])
  }

  /** The frame around a payload, appended piece by piece; the program does not look whether an append succeeded. */
  method FrameReply(out: Buffer, payload: Bytes, ack: bool, limit: nat) returns (sent: bool, ghost ok: seq<bool>)
    requires out.Valid()
    modifies out, out.data
    ensures out.Valid() && |ok| == 4 && sent == (ok == [true, true, true, true])
    ensures out.Contents() == old(out.Contents()) + FramedIf(payload, ack, ok)
    ensures sent ==> out.Contents() == old(out.Contents()) + Framed(payload, ack)
  {
    var head := if ack then [PLUS, DOLLAR] else [DOLLAR];
    ghost var was := out.Contents();
    var a, b, c, start, end := AppendBody(out, head, payload, limit);
    var sum := Parser.BuffChecksum(out.data, start, end);
    var d := AppendPiece(out, TwoDigits(sum), limit);
    ok := [a, b, c, d];
    Associates(was, Kept(head, a), Kept(payload, b), Kept([HASH], c), Kept(TwoDigits(sum), d));
    sent := a && b && c && d;
  }

  /** What comes before the payload, the payload and the `#`; and the bounds of the payload. */
  method AppendBody(out: Buffer, head: Bytes, payload: Bytes, limit: nat)
    returns (a: bool, b: bool, c: bool, start: nat, end: nat)
    requires out.Valid()
    modifies out, out.data
    ensures out.Valid() && (out.data == old(out.data) || fresh(out.data))
    ensures out.Contents() == old(out.Contents()) + Kept(head, a) + Kept(payload, b) + Kept([HASH], c)
    ensures start <= end <= out.data.Length && out.data[start..end] == Kept(payload, b)
  {
    a := AppendPiece(out, head, limit);
    ghost var before := out.Contents();
    start := out.filled;
    b := AppendPiece(out, payload, limit);
    end := out.filled;
    c := AppendPiece(out, [HASH], limit);
    Between(before, Kept(payload, b), Kept([HASH], c));
    assert out.data[start..end] == out.Contents()[start..end];
  }

  method AppendPiece(out: Buffer, piece: Bytes, limit: nat) returns (ok: bool)
    requires out.Valid()
    modifies out, out.data
    ensures out.Valid() && (out.data == old(out.data) || fresh(out.data))
    ensures out.Contents() == old(out.Contents()) + Kept(piece, ok) && out.filled == old(out.filled) + |Kept(piece, ok)|
  {
    var r := out.Append(piece, limit);
    ok := r == BuffOk;
    assert |out.Contents()| == out.filled;
  }

  lemma Between(a: Bytes, b: Bytes, c: Bytes)
    ensures (a + b + c)[|a|..|a + b|] == b
  {}

  lemma Associates(a: Bytes, b: Bytes, c: Bytes, d: Bytes, e: Bytes)
    ensures a + b + c + d + e == a + (b + c + d + e)
  {}

  lemma CStringPrefix(s: Bytes)
    ensures |CString(s)| >= 2 <==> |s| >= 2 && s[0] != 0 && s[1] != 0
    ensures |CString(s)| >= 2 ==> CString(s)[0] == s[0] && CString(s)[1] == s[1]
  {
    if |s| >= 2 && s[0] != 0 && s[1] != 0 {
      assert s[1..][0] == s[1];
    }
  }
}
