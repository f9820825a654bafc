/** What the longer replies say: the answers to queries, and the stop reply of a program that has stopped. */
module Replies {
  import opened Memory
  import opened Partial
  import opened Strtol
  import opened Hex
  import opened Tokenizer
  import opened Commands
  import opened Breakpoints
  import opened Builder
  import opened Packets
  import Registers
  import Cpu
  import VPacket

  // ----- decimal numbers

  /** The value of decimal digits. */
  function DecimalValue(s: Bytes): int {
    if s == [] then 0 else 10 * DecimalValue(s[..|s| - 1]) + s[|s| - 1] - 0x30
  }

  /** A number written in decimal is read back, and there is no leading zero. */
  lemma {:induction false} DecimalReadsBack(n: nat)
    ensures DecimalValue(Decimal(n)) == n && Decimal(n) != [] && (n > 0 ==> Decimal(n)[0] != 0x30)
    decreases n
  {
    if n < 10 {
      assert [0x30 + n][..0] == [];
    } else {
      DecimalReadsBack(n / 10);
      assert Decimal(n)[..|Decimal(n)| - 1] == Decimal(n / 10);
    }
  }

  // ----- queries

  /** A command without separators, by itself or with a colon and anything behind it. */
  predicate Asks(payload: Bytes, command: Bytes) {
    && command != [] && 0 !in command && ':' as int !in command && ',' as int !in command
    && (payload == command
        || (|payload| > |command| && payload[..|command|] == command && payload[|command|] == ':' as int))
  }

  /** Such a packet is the query of that name, whatever is behind the colon. */
  lemma QueryOf(payload: Bytes, command: Bytes, names: seq<Bytes>, selected: nat)
    requires Asks(payload, command) && !IsExtra(command)
    ensures QueryPacket(payload, names, selected) == Payload(QueryReply(command, selected, |names|))
  {
    var cut := Severed(payload);
    SeveredAt(payload, command);
    var j := TokenLen(cut, Comma());
    assert j >= |command|;
    VPacket.NoNul(command);
    if j > |command| {
      assert cut[..j] == command + [0] + cut[|command| + 1..j];
      NulEndsTheToken(command, cut[|command| + 1..j]);
    } else {
      assert cut[..j] == command;
    }
  }

  lemma SeveredAt(payload: Bytes, command: Bytes)
    requires Asks(payload, command)
    ensures var cut := Severed(payload);
      && |cut| == |payload| && cut[..|command|] == command && (|cut| > |command| ==> cut[|command|] == 0)
      && TokenLen(cut, Comma()) >= |command|
  {
    assert payload[..|command|] == command;
    assert forall k :: 0 <= k < |command| ==> payload[k] == command[k];
    assert TokenLen(payload, Colon()) == |command|;
    var cut := Severed(payload);
    assert forall k :: 0 <= k < |command| ==> cut[k] == command[k];
  }

  /** The ids of all threads, from 1 on. */
  function Ids(n: nat): (ids: seq<Bytes>) { seq(n, i requires 0 <= i < n => Decimal(i + 1)) }

  function Commas(n: nat): seq<byte> { seq(n, _ => ',' as int) }

  /** The list of ids is the ids joined by commas, so it is taken apart into exactly them. */
  lemma {:induction false} ListIsJoined(n: nat)
    requires n > 0
    ensures Listed(n) + Decimal(n) == Join(Ids(n), Commas(n - 1))
  {
    if n == 1 {
      assert Ids(1) == [Decimal(1)];
    } else {
      ListIsJoined(n - 1);
      assert Ids(n) == Ids(n - 1) + [Decimal(n)] && Commas(n - 1) == Commas(n - 2) + [',' as int];
      JoinSnoc(Ids(n - 1), Commas(n - 2), ',' as int, Decimal(n));
    }
  }

  lemma {:induction false} JoinSnoc(fields: seq<Bytes>, terms: seq<byte>, term: byte, last: Bytes)
    requires |fields| == |terms| + 1
    ensures Join(fields + [last], terms + [term]) == Join(fields, terms) + [term] + last
    decreases |fields|
  {
    var f, t := fields + [last], terms + [term];
    if terms == [] {
      assert f[1..] == [last] && t[1..] == [];
    } else {
      assert f[1..] == fields[1..] + [last] && t[1..] == terms[1..] + [term];
      JoinSnoc(fields[1..], terms[1..], term, last);
    }
  }

  lemma IdsComeBack(n: nat)
    requires n > 0
    ensures Tokens(Some(Listed(n) + Decimal(n)), Calls(Commas(n - 1))) == Some(Ids(n))
  {
    ListIsJoined(n);
    forall i | 0 <= i < n - 1
      ensures Ids(n)[i] != [] && Commas(n - 1)[i] !in Ids(n)[i]
    {
      DecimalReadsBack(i + 1);
    }
    JoinedFieldsComeBack(Ids(n), Commas(n - 1));
  }

  /** The stub answers a query like that and changes nothing. */
  lemma QueryServed(x: Exchange)
    requires Served(x) && x.payload != [] && x.payload[0] == 'q' as int
    ensures x.now == x.was && x.reply == QueryPacket(x.payload, x.names, x.was.selected)
  {}

  /** The names of the queries are all different. */
  lemma QueryNames()
    ensures Ascii("qC") == ['q' as int, 'C' as int]
    ensures |Ascii("qSupported")| == 10 && |Ascii("qfThreadInfo")| == 12 && |Ascii("qsThreadInfo")| == 12
    ensures |Ascii("qSymbol")| == 7 && |Ascii("qThreadExtraInfo")| == 16
    ensures Ascii("qfThreadInfo")[1] != Ascii("qsThreadInfo")[1]
  {}

  /** `qC`: the id of the selected core, counted from one. */
  lemma CurrentThread(payload: Bytes, names: seq<Bytes>, selected: nat)
    requires Asks(payload, ['q' as int, 'C' as int])
    ensures
      var r := QueryPacket(payload, names, selected);
      && r.Payload? && |r.bytes| > 2 && r.bytes[..2] == ['Q' as int, 'C' as int]
      && DecimalValue(r.bytes[2..]) == selected + 1
  {
    QueryOf(payload, ['q' as int, 'C' as int], names, selected);
    QueryNames();
    DecimalReadsBack(selected + 1);
    var d := Decimal(selected + 1);
    assert (['Q' as int, 'C' as int] + d)[2..] == d;
  }

  /** `qfThreadInfo` lists the ids of all cores, 1 to n, and `qsThreadInfo` has nothing to add. */
  lemma FirstThreads(payload: Bytes, names: seq<Bytes>, selected: nat)
    requires names != [] && Asks(payload, Ascii("qfThreadInfo"))
    ensures
      var r := QueryPacket(payload, names, selected);
      && r.Payload? && r.bytes != [] && r.bytes[0] == 'm' as int
      && Tokens(Some(r.bytes[1..]), Calls(Commas(|names| - 1))) == Some(Ids(|names|))
  {
    QueryNames();
    QueryOf(payload, Ascii("qfThreadInfo"), names, selected);
    IdsComeBack(|names|);
    Headed('m' as int, Listed(|names|), Decimal(|names|));
  }

  lemma Headed(c: byte, a: Bytes, b: Bytes)
    ensures ([c] + a + b)[0] == c && ([c] + a + b)[1..] == a + b
  {}

  lemma OtherThreads(payload: Bytes, names: seq<Bytes>, selected: nat)
    requires Asks(payload, Ascii("qsThreadInfo"))
    ensures QueryPacket(payload, names, selected) == Payload(['l' as int])
  {
    QueryNames();
    QueryOf(payload, Ascii("qsThreadInfo"), names, selected);
  }

  /** `qSupported` names the features, `qSymbol` needs none. */
  lemma FeaturesAsked(payload: Bytes, names: seq<Bytes>, selected: nat)
    requires Asks(payload, Ascii("qSupported"))
    ensures QueryPacket(payload, names, selected) == Payload(Ascii("swbreak+;vCont+;QStartNoAckMode+"))
  {
    QueryNames();
    QueryOf(payload, Ascii("qSupported"), names, selected);
  }

  lemma SymbolsOffered(payload: Bytes, names: seq<Bytes>, selected: nat)
    requires Asks(payload, Ascii("qSymbol"))
    ensures QueryPacket(payload, names, selected) == Payload(['O' as int, 'K' as int])
  {
    QueryNames();
    QueryOf(payload, Ascii("qSymbol"), names, selected);
  }

  /** `qThreadExtraInfo,n`: the description of core n - 1, in hexadecimal; no other core has one. */
  lemma ExtraAsked(payload: Bytes, n: nat, names: seq<Bytes>, selected: nat)
    requires payload == Ascii("qThreadExtraInfo") + [',' as int] + HexNumber(n)
    ensures QueryPacket(payload, names, selected) ==
            Payload(if 0 < n <= |names| && n <= UINT32_MAX then Encode(names[n - 1]) else ['E' as int])
  {
    var command := Ascii("qThreadExtraInfo");
    QueryNames();
    ExtraCut(payload, n);
    assert command[..16] == command;
    OneNumber(n, Arg32(None));
    assert QueryReply(command, selected, |names|) == [];
    if 0 < n <= |names| && n <= UINT32_MAX {
      assert Encode(names[n - 1]) + [] == Encode(names[n - 1]);
    }
  }

  lemma ExtraCut(payload: Bytes, n: nat)
    requires payload == Ascii("qThreadExtraInfo") + [',' as int] + HexNumber(n)
    ensures Severed(payload) == payload && TokenLen(payload, Comma()) == 16
    ensures CString(payload[..16]) == Ascii("qThreadExtraInfo") && Beyond(payload, 16) == Some(HexNumber(n))
  {
    var command := Ascii("qThreadExtraInfo");
    HexNumberLacks(n, ':' as int);
    PlainName(command);
    VPacket.WholeToken(payload, ':' as int);
    FirstFieldCut(command, ',' as int, HexNumber(n), payload);
    VPacket.NoNul(command);
  }

  lemma PlainName(command: Bytes)
    requires command == Ascii("qThreadExtraInfo")
    ensures |command| == 16 && ':' as int !in command && ',' as int !in command && 0 !in command
  {}

  // ----- stop replies

  function RegisterText(w: word, id: nat): (r: Bytes)
    requires id < 33
    ensures |r| == 12
  {
    TwoDigits(id) + [':' as int] + Encode(Registers.FourBytes(w)) + [';' as int]
  }

  lemma OneMoreField(regs: seq<word>, n: nat)
    requires 0 < n <= |regs| && n <= 33
    ensures RegisterFields(regs, n) == RegisterFields(regs, n - 1) + RegisterText(regs[n - 1], n - 1)
  {
    var a := RegisterFields(regs, n - 1);
    var b, c, d := TwoDigits(n - 1), [':' as int], Encode(Registers.FourBytes(regs[n - 1]));
    Grouped(a, b, c, d, [';' as int]);
  }

  lemma Grouped(a: Bytes, b: Bytes, c: Bytes, d: Bytes, e: Bytes)
    ensures a + b + c + d + e == a + (b + c + d + e)
  {}

  lemma PartOf(a: Bytes, b: Bytes, m: nat, k: nat)
    requires |a| == 12 * m && |b| == 12 && k <= m
    ensures |a + b| == 12 * (m + 1) && (a + b)[12 * k..12 * k + 12] == if k == m then b else a[12 * k..12 * k + 12]
  {}

  /** Every register has its twelve characters: the id, a colon, the value as `p` gives it, a semicolon. */
  lemma {:induction false} RegisterField(regs: seq<word>, n: nat, k: nat)
    requires k < n <= |regs| && n <= 33
    ensures |RegisterFields(regs, n)| == 12 * n
    ensures RegisterFields(regs, n)[12 * k..12 * k + 12] == RegisterText(regs[k], k)
    decreases n
  {
    OneMoreField(regs, n);
    var a, b := RegisterFields(regs, n - 1), RegisterText(regs[n - 1], n - 1);
    if n > 1 { RegisterField(regs, n - 1, if k < n - 1 then k else 0); }
    assert |a| == 12 * (n - 1);
    PartOf(a, b, n - 1, k);
  }

  /** How a stop reply reads: the thread and the core with their ids, and then the registers. */
  predicate StopText(text: Bytes, core: nat, regs: seq<word>)
    requires |regs| >= 33
  {
    text == Ascii("T05swbreak:;") + (Ascii("thread:") + Decimal(core + 1) + Ascii(";core:") + Decimal(core + 1)
                                     + Ascii(";")) + RegisterFields(regs, 33)
  }

  /** The reply to a packet for which nobody, or the core `halter`, is reported. */
  ghost predicate Reports(r: Reply, stop: Stop, halter: Option<nat>)
    requires StopFits(stop, |stop.regs|) && (halter.Some? ==> halter.value < |stop.regs|)
  {
    && r.Payload?
    && if stop.interrupted then r.bytes == ['S' as int, '0' as int, '2' as int]
       else if halter.None? then r.bytes == Ascii("T05swbreak:;")
       else StopText(r.bytes, halter.value, stop.regs[halter.value])
  }

  lemma Interrupted()
    ensures Ascii("S02") == ['S' as int, '0' as int, '2' as int]
    ensures Ascii("s;c") == ['s' as int, ';' as int, 'c' as int]
  {}

  lemma StopServed(x: Exchange)
    requires Served(x) && x.payload != [] && x.payload[0] == 'v' as int
    ensures x.now == x.was && VAnswered(x.plan, x.stop, x.reply, x.was.table)
  {}

  /** A `v` packet for one core: that core is reported. */
  lemma OneCoreStops(plan: VPacket.Plan, stop: Stop, r: Reply, t: Table, core: nat)
    requires StopFits(stop, |stop.regs|) && core < |stop.regs| && VAnswered(plan, stop, r, t)
    requires plan == VPacket.ContinueCore(core) || plan == VPacket.StepCore(core)
    ensures Reports(r, stop, Some(core))
  {
    Interrupted();
  }

  lemma FirstIsUnique(h: Option<nat>, h': Option<nat>, stop: Stop, t: Table)
    requires StopFits(stop, |stop.regs|) && FirstOn(h, stop, t) && FirstOn(h', stop, t)
    ensures h == h'
  {}

  /** A `v` packet for all cores: the first core on a breakpoint is reported, if there is one. */
  lemma AllCoresStop(stop: Stop, r: Reply, t: Table, first: Option<nat>)
    requires StopFits(stop, |stop.regs|) && VAnswered(VPacket.ContinueAll, stop, r, t) && FirstOn(first, stop, t)
    ensures Reports(r, stop, first)
  {
    Interrupted();
    var halter: Option<nat> :| (halter.Some? ==> halter.value < |stop.regs|)
      && Halts(halter, VPacket.ContinueAll, stop, t) && r == VReply(VPacket.ContinueAll, stop, halter);
    FirstIsUnique(halter, first, stop, t);
  }

  /** To stand on a breakpoint is to have the PC at the address of a full slot. */
  lemma OnExactly(stop: Stop, t: Table, i: nat)
    requires StopFits(stop, |stop.regs|) && i < |stop.regs|
    ensures On(stop, t, i) <==> exists k :: 0 <= k < |t| && t[k].full && t[k].addr == stop.regs[i][32]
  {
    PlantedIff(t, stop.regs[i][32]);
  }

  /** The packet came from a buffer that holds it, and the plan was made there. */
  ghost predicate Planned(x: Exchange, d: Bytes, start: nat, end: nat) {
    && VPacket.Holds(d, start, end, x.payload) && |x.names| == |x.stop.regs|
    && x.plan == VPacket.Plans(d, start, end, |x.names|, x.was.selected)
  }

  /** `vCont;c:n` and `vCont;s:n` in the buffer, to the end: core n - 1 is reported; any other id is an error. */
  lemma RunOneCore(x: Exchange, d: Bytes, start: nat, end: nat, action: byte, n: nat)
    requires Served(x) && Planned(x, d, start, end) && 0 < n < LONG_MAX && action as char in {'c', 's'}
    requires x.payload == VPacket.VCont() + [';' as int] + ([action, ':' as int] + HexNumber(n))
    ensures x.now == x.was
    ensures if n <= |x.names| then Reports(x.reply, x.stop, Some(n - 1)) else x.reply == Payload(['E' as int])
  {
    VPacket.OneCorePackets(d, start, end, |x.names|, x.was.selected, action, n);
    assert x.payload[0] == 'v' as int;
    StopServed(x);
    if n <= |x.names| {
      OneCoreStops(x.plan, x.stop, x.reply, x.was.table, n - 1);
    } else {
      NothingRuns(x.plan, x.stop, x.reply, x.was.table);
    }
  }

  /** `vCont;c` to the end: the first core on a breakpoint is reported. */
  lemma RunAllCores(x: Exchange, d: Bytes, start: nat, end: nat, first: Option<nat>)
    requires Served(x) && Planned(x, d, start, end) && FirstOn(first, x.stop, x.was.table)
    requires x.payload == VPacket.VCont() + [';' as int] + ['c' as int]
    ensures x.now == x.was && Reports(x.reply, x.stop, first)
  {
    VPacket.AllCoresPackets(d, start, end, |x.names|, x.was.selected, 'c' as int);
    assert x.payload[0] == 'v' as int;
    StopServed(x);
    AllCoresStop(x.stop, x.reply, x.was.table, first);
  }

  /** Packets that run nothing: the features, a refusal or an empty reply. */
  lemma NothingRuns(plan: VPacket.Plan, stop: Stop, r: Reply, t: Table)
    requires StopFits(stop, |stop.regs|) && VAnswered(plan, stop, r, t)
    ensures plan == VPacket.AskFeatures ==> r == Payload(['s' as int, ';' as int, 'c' as int])
    ensures plan == VPacket.Refuse ==> r == Payload(['E' as int])
    ensures plan == VPacket.NoCommand ==> r == Payload([])
  {
    Interrupted();
  }
}
