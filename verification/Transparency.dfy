/**
  Breakpoints are invisible to the guest: a debugged run of a program, which plants and lifts
  breakpoints, stops on them and steps over them, goes through exactly the states of the bare run.
*/
module Transparency {
  import opened Partial
  import opened Memory
  import opened Words
  import opened Cpu
  import opened Breakpoints

  /** One turn of the run loop for a program that stays inside the model; an EBREAK leaves the PC in place. */
  function Move(h: Hart): Option<Hart> {
    if !Valid(h) then None
    else match Iteration(h)
      case Ran(k) => Some(k)
      case Breakpoint(k) => Some(k)
      case _ => None
  }

  // ----- one instruction in patched and in original memory

  /** The data an instruction accesses: address and width. */
  function Footprint(regs: seq<word>, f: Fields): (nat, nat)
    requires |regs| == REG_NUMS
  {
    if f.opcode == 0x03 then (U(regs[f.rs1] + f.iImm), LoadWidth(f.func))
    else if f.opcode == 0x23 then (U(regs[f.rs1] + f.sImm), StoreWidth(f.func))
    else (0, 0)
  }

  /** None of the bytes belongs to a planted word. */
  ghost predicate Avoids(t: Table, a: nat, n: nat) { forall k :: a <= k < a + n ==> !Covered(t, k) }

  /** Same outcome and registers, and memories that agree up to the planted words. */
  ghost predicate Twins(t: Table, patched: Outcome, bare: Outcome) {
    match patched
    case Ran(p) => bare.Ran? && p.regs == bare.hart.regs && Agrees(t, p.mem, bare.hart.mem)
    case Breakpoint(p) => bare.Breakpoint? && p.regs == bare.hart.regs && Agrees(t, p.mem, bare.hart.mem)
    case other => bare == other
  }

  lemma LoadsSame(t: Table, m: Bytes, orig: Bytes, func: word, a: nat)
    requires Agrees(t, m, orig) && LoadWidth(func) != 0 && Fits(m, a, LoadWidth(func)) && Avoids(t, a, LoadWidth(func))
    ensures LoadedValue(func, m, a) == LoadedValue(func, orig, a)
  {
    assert forall k :: a <= k < a + LoadWidth(func) ==> m[k] == orig[k];
  }

  lemma StoredBytes(m: Bytes, orig: Bytes, func: word, a: nat, v: word, k: nat)
    requires |m| == |orig| && StoreWidth(func) != 0 && Fits(m, a, StoreWidth(func)) && k < |m|
    ensures a <= k < a + StoreWidth(func) ==> Stored(func, m, a, v)[k] == Stored(func, orig, a, v)[k]
    ensures !(a <= k < a + StoreWidth(func)) ==>
              Stored(func, m, a, v)[k] == m[k] && Stored(func, orig, a, v)[k] == orig[k]
  {}

  lemma StoredSlot(s: Slot, m: Bytes, orig: Bytes, func: word, a: nat, v: word)
    requires SlotAgrees(s, m, orig) && |m| == |orig| && StoreWidth(func) != 0 && Fits(m, a, StoreWidth(func))
    requires forall k :: a <= k < a + StoreWidth(func) ==> !Covers(s, k)
    ensures SlotAgrees(s, Stored(func, m, a, v), Stored(func, orig, a, v))
  {
    if s.full {
      forall k | s.addr <= k < s.addr + 4
        ensures Stored(func, m, a, v)[k] == m[k] && Stored(func, orig, a, v)[k] == orig[k]
      {
        assert Covers(s, k);
        StoredBytes(m, orig, func, a, v, k);
      }
      SameWord(Stored(func, m, a, v), m, s.addr);
      SameWord(Stored(func, orig, a, v), orig, s.addr);
    }
  }

  lemma SameWord(m: Bytes, n: Bytes, a: nat)
    requires Fits(m, a, 4) && Fits(n, a, 4) && forall k :: a <= k < a + 4 ==> m[k] == n[k]
    ensures Rw(m, a) == Rw(n, a)
  {}

  /** The same store to both memories keeps them in agreement. */
  lemma StoresAgree(t: Table, m: Bytes, orig: Bytes, func: word, a: nat, v: word)
    requires Agrees(t, m, orig) && StoreWidth(func) != 0
    requires Fits(m, a, StoreWidth(func)) && Avoids(t, a, StoreWidth(func))
    ensures Agrees(t, Stored(func, m, a, v), Stored(func, orig, a, v))
  {
    forall i | 0 <= i < |t|
      ensures SlotAgrees(t[i], Stored(func, m, a, v), Stored(func, orig, a, v))
    {
      forall k | a <= k < a + StoreWidth(func)
        ensures !Covers(t[i], k)
      {
        assert !Covered(t, k);
      }
      StoredSlot(t[i], m, orig, func, a, v);
    }
    forall k | 0 <= k < |m| && !Covered(t, k)
      ensures Stored(func, m, a, v)[k] == Stored(func, orig, a, v)[k]
    {
      StoredBytes(m, orig, func, a, v, k);
    }
  }

  lemma LoadTwins(t: Table, p: Hart, b: Hart, f: Fields)
    requires Valid(p) && p.regs == b.regs && Agrees(t, p.mem, b.mem) && f.opcode == 0x03
    requires Avoids(t, Footprint(p.regs, f).0, Footprint(p.regs, f).1)
    ensures Twins(t, RunLoad(p, f), RunLoad(b, f))
  {
    var (a, n) := Footprint(p.regs, f);
    if n != 0 && Fits(p.mem, a, n) { LoadsSame(t, p.mem, b.mem, f.func, a); }
    LoadDependsOnValue(p, b, f, a);
  }

  /** Two harts with the same registers that load the same value do the same. */
  lemma LoadDependsOnValue(p: Hart, b: Hart, f: Fields, a: nat)
    requires Valid(p) && p.regs == b.regs && |p.mem| == |b.mem| && a == U(p.regs[f.rs1] + f.iImm)
    requires LoadWidth(f.func) != 0 && Fits(p.mem, a, LoadWidth(f.func)) ==>
               LoadedValue(f.func, p.mem, a) == LoadedValue(f.func, b.mem, a)
    ensures RunLoad(p, f).Ran? ==>
              RunLoad(p, f).hart.mem == p.mem && RunLoad(b, f) == Ran(Hart(RunLoad(p, f).hart.regs, b.mem))
    ensures !RunLoad(p, f).Ran? ==> !RunLoad(p, f).Breakpoint? && RunLoad(b, f) == RunLoad(p, f)
  {
    if LoadWidth(f.func) != 0 && Fits(p.mem, a, LoadWidth(f.func)) {
      var v := LoadedValue(f.func, p.mem, a);
      assert RunLoad(p, f) == Ran(WriteBack(p, f.rd, v, Next(p)));
      assert RunLoad(b, f) == Ran(WriteBack(b, f.rd, v, Next(b)));
    }
  }

  lemma StoreTwins(t: Table, p: Hart, b: Hart, f: Fields)
    requires Valid(p) && p.regs == b.regs && Agrees(t, p.mem, b.mem) && f.opcode == 0x23
    requires Avoids(t, Footprint(p.regs, f).0, Footprint(p.regs, f).1)
    ensures Twins(t, RunStore(p, f), RunStore(b, f))
  {
    var (a, n) := Footprint(p.regs, f);
    assert |p.mem| == |b.mem|;
    StoreShape(p, b, f, a);
    if StoreWidth(f.func) != 0 && Fits(p.mem, a, n) {
      StoresAgree(t, p.mem, b.mem, f.func, a, p.regs[f.rs2]);
    }
  }

  lemma StoreShape(p: Hart, b: Hart, f: Fields, a: nat)
    requires Valid(p) && p.regs == b.regs && |p.mem| == |b.mem| && a == U(p.regs[f.rs1] + f.sImm)
    ensures StoreWidth(f.func) != 0 && Fits(p.mem, a, StoreWidth(f.func)) ==>
              var v := p.regs[f.rs2];
              && RunStore(p, f) == Ran(Hart(p.regs[PC := Next(p)], Stored(f.func, p.mem, a, v)))
              && RunStore(b, f) == Ran(Hart(p.regs[PC := Next(p)], Stored(f.func, b.mem, a, v)))
    ensures !(StoreWidth(f.func) != 0 && Fits(p.mem, a, StoreWidth(f.func))) ==>
              RunStore(p, f) == RunStore(b, f) && (RunStore(p, f).Exit? || RunStore(p, f).Wild?)
  {}

  /** The same outcome over another memory. */
  function Over(r: Outcome, m: Bytes): Outcome {
    match r
    case Ran(h) => Ran(h.(mem := m))
    case Breakpoint(h) => Breakpoint(h.(mem := m))
    case other => other
  }

  /** Every other instruction computes on registers alone, and leaves memory alone. */
  lemma RegisterOnly(p: Hart, b: Hart, f: Fields)
    requires Valid(p) && p.regs == b.regs && f.opcode != 0x03 && f.opcode != 0x23
    ensures Dispatch(b, f) == Over(Dispatch(p, f), b.mem) && Dispatch(p, f) == Over(Dispatch(p, f), p.mem)
  {
    if f.opcode == 0x33 {
      ValueOnly(p, b, f, RValue(f.rfunc, p.regs[f.rs1], p.regs[f.rs2]));
    } else if f.opcode == 0x13 {
      ValueOnly(p, b, f, IrValue(f, p.regs[f.rs1]));
    } else if f.opcode == 0x63 {
      BranchOnly(p, b, f);
    }
  }

  lemma ValueOnly(p: Hart, b: Hart, f: Fields, v: Option<word>)
    requires Valid(p) && p.regs == b.regs
    ensures RunValue(b, f, v) == Over(RunValue(p, f, v), b.mem) && RunValue(p, f, v) == Over(RunValue(p, f, v), p.mem)
  {}

  lemma BranchOnly(p: Hart, b: Hart, f: Fields)
    requires Valid(p) && p.regs == b.regs
    ensures RunBranch(b, f) == Over(RunBranch(p, f), b.mem) && RunBranch(p, f) == Over(RunBranch(p, f), p.mem)
  {}

  lemma RegisterTwins(t: Table, p: Hart, b: Hart, f: Fields)
    requires Valid(p) && p.regs == b.regs && Agrees(t, p.mem, b.mem) && f.opcode != 0x03 && f.opcode != 0x23
    ensures Twins(t, Dispatch(p, f), Dispatch(b, f))
  {
    RegisterOnly(p, b, f);
    OverTwins(t, Dispatch(p, f), p.mem, b.mem);
  }

  lemma OverTwins(t: Table, r: Outcome, m: Bytes, orig: Bytes)
    requires Agrees(t, m, orig)
    ensures Twins(t, Over(r, m), Over(r, orig))
  {}

  /** Any instruction whose data avoids the planted words does the same in both memories. */
  lemma DispatchTwins(t: Table, p: Hart, b: Hart, f: Fields)
    requires Valid(p) && p.regs == b.regs && Agrees(t, p.mem, b.mem)
    requires Avoids(t, Footprint(p.regs, f).0, Footprint(p.regs, f).1)
    ensures Twins(t, Dispatch(p, f), Dispatch(b, f))
  {
    if f.opcode == 0x03 {
      LoadTwins(t, p, b, f);
    } else if f.opcode == 0x23 {
      StoreTwins(t, p, b, f);
    } else {
      RegisterTwins(t, p, b, f);
    }
  }

  // ----- one turn of the run loop

  /** The planted word decodes to an instruction that stops the core and leaves everything else. */
  lemma EbreakStops(h: Hart)
    requires Valid(h) && Fits(h.mem, h.regs[PC], 4) && Rw(h.mem, h.regs[PC]) == EBREAK
    ensures Iteration(h) == Breakpoint(Cleared(h))
  {
    EbreakFields();
  }

  lemma EbreakFields()
    ensures !IsCompressed(EBREAK as bv32)
    ensures FieldsOf(EBREAK as bv32).opcode == 0x73 && FieldsOf(EBREAK as bv32).iImm == 1
  {
    EbreakWord();
    EbreakBits(0x0010_0073);
  }

  lemma EbreakWord()
    ensures EBREAK as bv32 == 0x0010_0073
  {
    var x: bv32 := 0x0010_0073;
    assert (x as int) as bv32 == x;
  }

  lemma EbreakBits(x: bv32)
    requires x == 0x0010_0073
    ensures !IsCompressed(x) && OpcodeType(x) == 0x73 && IImm(x) == 1
  {}

  /** The word is not compressed. */
  predicate Legible(w: word) { !IsCompressed(w as bv32) }

  function WordFields(w: word): Fields { FieldsOf(w as bv32) }

  /** The instruction at the PC accesses no planted word as data, and its fetch does not cut one. */
  ghost predicate Obeys(t: Table, h: Hart)
    requires Valid(h)
  {
    var pc := h.regs[PC];
    && (Planted(t, pc) || Avoids(t, pc, 4))
    && (Fits(h.mem, pc, 4) ==>
          var fp := Footprint(Cleared(h).regs, WordFields(Rw(h.mem, pc))); Avoids(t, fp.0, fp.1))
  }

  /** The debugged hart and the bare hart: equal but for scratch register 0 and the planted words. */
  ghost predicate Related(t: Table, p: Hart, b: Hart) {
    && Valid(p) && Valid(b)
    && Cleared(p).regs == Cleared(b).regs
    && Agrees(t, p.mem, b.mem)
  }

  /** Outcome of an iteration whose fields are `f`; a compressed word ends the process. */
  function Dispatched(h: Hart, known: bool, f: Fields): Outcome
    requires Valid(h)
  {
    if known then Dispatch(Cleared(h), f) else Exit
  }

  lemma ExecuteIs(k: Hart, ins: bv32, known: bool, f: Fields)
    requires Valid(k) && known == !IsCompressed(ins) && f == FieldsOf(ins)
    ensures Execute(k, ins) == if known then Dispatch(k, f) else Exit
  {}

  lemma IterationIs(h: Hart, ins: bv32, o: Outcome)
    requires Valid(h) && Fits(h.mem, h.regs[PC], 4) && ins == Rw(h.mem, h.regs[PC]) as bv32
    requires Execute(Cleared(h), ins) == o
    ensures Iteration(h) == o
  {}

  lemma ExecuteOf(k: Hart, w: word)
    requires Valid(k)
    ensures Execute(k, w as bv32) == if Legible(w) then Dispatch(k, WordFields(w)) else Exit
  {
    ExecuteIs(k, w as bv32, Legible(w), WordFields(w));
  }

  lemma IterationOf(h: Hart, w: word)
    requires Valid(h) && Fits(h.mem, h.regs[PC], 4) && w == Rw(h.mem, h.regs[PC])
    ensures Iteration(h) == Dispatched(h, Legible(w), WordFields(w))
  {
    ExecuteOf(Cleared(h), w);
    IterationIs(h, w as bv32, Dispatched(h, Legible(w), WordFields(w)));
  }

  /** Away from the breakpoints, a turn in patched memory does what it does in original memory. */
  lemma IterationTwins(t: Table, p: Hart, b: Hart)
    requires Related(t, p, b) && Obeys(t, b) && Avoids(t, b.regs[PC], 4)
    ensures Twins(t, Iteration(p), Iteration(b))
  {
    var pc := b.regs[PC];
    assert p.regs[PC] == Cleared(p).regs[PC] == Cleared(b).regs[PC] == pc;
    if Fits(b.mem, pc, 4) {
      SameWord(p.mem, b.mem, pc);
      var w := Rw(b.mem, pc);
      IterationOf(p, w);
      IterationOf(b, w);
      if Legible(w) { DispatchTwins(t, Cleared(p), Cleared(b), WordFields(w)); }
    }
  }

  lemma MoveTwins(t: Table, p: Hart, b: Hart)
    requires Related(t, p, b) && Obeys(t, b) && Avoids(t, b.regs[PC], 4)
    ensures Move(p).Some? <==> Move(b).Some?
    ensures Move(p).Some? ==> Related(t, Move(p).value, Move(b).value)
  {
    IterationTwins(t, p, b);
  }

  /** The word under a breakpoint survives every instruction that obeys. */
  lemma PlantedWordSurvives(t: Table, p: Hart, b: Hart, i: nat)
    requires Related(t, p, b) && Obeys(t, b) && i < |t| && t[i].full && Move(b).Some?
    ensures Fits(Move(b).value.mem, t[i].addr, 4) && Rw(Move(b).value.mem, t[i].addr) == t[i].instr != EBREAK
  {
    var w := Rw(b.mem, b.regs[PC]);
    IterationOf(b, w);
    DispatchTwins(t, Cleared(p), Cleared(b), WordFields(w));
    assert SlotAgrees(t[i], Dispatch(Cleared(p), WordFields(w)).hart.mem, Move(b).value.mem);
  }

  // ----- the debugger's actions

  datatype Debuggee = Debuggee(table: Table, hart: Hart)

  datatype Action =
    | Plant(addr: nat)
    | Unplant(addr: nat)
    | Turn          // one turn of the run loop, in a continue or in a step
    | StepOver      // leave a breakpoint: remove, step, insert again

  /** Leaving a breakpoint, with the way a core is stepped as a parameter. */
  function StepTheBreakpoint(d: Debuggee, coreStep: Hart -> Option<Hart>): Option<Debuggee>
    requires Valid(d.hart)
  {
    var pc := d.hart.regs[PC];
    if !Planted(d.table, pc) then Some(d)
    else if !Fits(d.hart.mem, pc, 4) then None
    else
      var (t, m, _) := Remove(d.table, d.hart.mem, pc);
      match coreStep(d.hart.(mem := m))
      case None => None
      case Some(h) =>
        if !Fits(h.mem, pc, 4) then None
        else var (t', m', _) := Insert(t, h.mem, pc); Some(Debuggee(t', h.(mem := m')))
  }

  function Act(d: Debuggee, a: Action): Option<Debuggee> {
    if !Valid(d.hart) then None
    else match a
      case Plant(addr) =>
        if !Fits(d.hart.mem, addr, 4) then None
        else var (t, m, _) := Insert(d.table, d.hart.mem, addr); Some(Debuggee(t, d.hart.(mem := m)))
      case Unplant(addr) =>
        if Planted(d.table, addr) && !Fits(d.hart.mem, addr, 4) then None
        else var (t, m, _) := Remove(d.table, d.hart.mem, addr); Some(Debuggee(t, d.hart.(mem := m)))
      case Turn =>
        (match Move(d.hart) case None => None case Some(h) => Some(d.(hart := h)))
      case StepOver => StepTheBreakpoint(d, Move)
  }

  /** Whether the action executes an instruction of the program. */
  predicate Retires(d: Debuggee, a: Action) {
    && Valid(d.hart)
    && var planted := Planted(d.table, d.hart.regs[PC]); (a.Turn? && !planted) || (a.StepOver? && planted)
  }

  /** What is asked of debugger and program, in terms of the bare run. */
  ghost predicate Proper(d: Debuggee, b: Hart, a: Action) {
    match a
    case Plant(addr) => addr % 4 == 0 && Fits(b.mem, addr, 4)
    case Unplant(_) => true
    case _ => Valid(b) && Obeys(d.table, b)
  }

  function Bare(d: Debuggee, b: Hart, a: Action): Option<Hart> { Counterpart(Move, Retires(d, a), b) }

  lemma TurnIsTransparent(d: Debuggee, b: Hart)
    requires Related(d.table, d.hart, b) && Obeys(d.table, b)
    ensures Act(d, Turn).Some? <==> Bare(d, b, Turn).Some?
    ensures Act(d, Turn).Some? ==> Related(Act(d, Turn).value.table, Act(d, Turn).value.hart, Bare(d, b, Turn).value)
  {
    var pc := b.regs[PC];
    assert d.hart.regs[PC] == Cleared(d.hart).regs[PC] == Cleared(b).regs[PC] == pc;
    if Planted(d.table, pc) {
      assert SlotAgrees(d.table[FindFrom(d.table, pc, 0)], d.hart.mem, b.mem);
      EbreakStops(d.hart);
    } else {
      MoveTwins(d.table, d.hart, b);
    }
  }

  /** What a table with fewer breakpoints covers, the larger one covers. */
  lemma FewerCovered(t: Table, t': Table, i: nat, k: int)
    requires i < |t| && t' == t[i := t[i].(full := false)] && Covered(t', k)
    ensures Covered(t, k)
  {
    var j :| 0 <= j < |t'| && Covers(t'[j], k);
    assert Covers(t[j], k);
  }

  lemma StepOverLifts(t: Table, p: Hart, b: Hart, t': Table, m: Bytes)
    requires Related(t, p, b) && Obeys(t, b) && Planted(t, b.regs[PC]) && Fits(p.mem, b.regs[PC], 4)
    requires t' == Remove(t, p.mem, b.regs[PC]).0 && m == Remove(t, p.mem, b.regs[PC]).1
    ensures Related(t', p.(mem := m), b) && Obeys(t', b) && Avoids(t', b.regs[PC], 4)
    ensures FirstEmpty(t', 0) < |t'|
  {
    var pc := b.regs[PC];
    var i := FindFrom(t, pc, 0);
    RemoveAgrees(t, p.mem, b.mem, pc);
    forall k | Covered(t', k)
      ensures Covered(t, k)
    {
      FewerCovered(t, t', i, k);
    }
    PlantedIff(t', pc);
    assert SlotAgrees(t[i], p.mem, b.mem);
    UncoveredWord(t', m, b.mem, pc);
    assert !t'[i].full;
  }

  /** The second half of a step over a breakpoint: it goes back where it was. */
  lemma StepOverReplants(t: Table, t': Table, p: Hart, b: Hart, pc: nat)
    requires Related(t', p, b) && FirstEmpty(t', 0) < |t'|
    requires pc % 4 == 0 && Fits(b.mem, pc, 4) && Rw(b.mem, pc) != EBREAK
    requires forall a :: Planted(t', a) <==> Planted(t, a) && a != pc
    requires Planted(t, pc)
    ensures
      var (t'', m'', r) := Insert(t', p.mem, pc);
      r == Inserted && Related(t'', p.(mem := m''), b) && forall a :: Planted(t'', a) <==> Planted(t, a)
  {
    InsertAgrees(t', p.mem, b.mem, pc);
    NotPlanted(t', p.mem, b.mem, pc);
    var t'' := Insert(t', p.mem, pc).0;
    forall a
      ensures Planted(t'', a) <==> Planted(t, a)
    {
      InsertPlants(t', p.mem, pc, a);
    }
  }

  /** A step over a breakpoint executes the one instruction under it, and the same breakpoints stay planted. */
  lemma StepOverIsTransparent(d: Debuggee, b: Hart)
    requires Related(d.table, d.hart, b) && Obeys(d.table, b) && Planted(d.table, b.regs[PC])
    ensures StepTheBreakpoint(d, Move).Some? <==> Move(b).Some?
    ensures StepTheBreakpoint(d, Move).Some? ==>
              var d' := StepTheBreakpoint(d, Move).value;
              && Related(d'.table, d'.hart, Move(b).value)
              && forall a :: Planted(d'.table, a) <==> Planted(d.table, a)
  {
    var pc, t, p := b.regs[PC], d.table, d.hart;
    assert SlotAgrees(t[FindFrom(t, pc, 0)], p.mem, b.mem);
    var (t', m, _) := Remove(t, p.mem, pc);
    StepOverMoves(t, p, b, t', m);
    StepOverWith(d, b, Move, Move(b), t', m);
  }

  /** The step over a breakpoint, given what the core's step does. */
  lemma StepOverWith(d: Debuggee, b: Hart, coreStep: Hart -> Option<Hart>, b': Option<Hart>, t': Table, m: Bytes)
    requires Related(d.table, d.hart, b) && Planted(d.table, b.regs[PC]) && Fits(d.hart.mem, b.regs[PC], 4)
    requires t' == Remove(d.table, d.hart.mem, b.regs[PC]).0 && m == Remove(d.table, d.hart.mem, b.regs[PC]).1
    requires b.regs[PC] % 4 == 0 && FirstEmpty(t', 0) < |t'|
    requires forall a :: Planted(t', a) <==> Planted(d.table, a) && a != b.regs[PC]
    requires coreStep(d.hart.(mem := m)).Some? <==> b'.Some?
    requires b'.Some? ==>
               && Related(t', coreStep(d.hart.(mem := m)).value, b'.value)
               && Fits(b'.value.mem, b.regs[PC], 4) && Rw(b'.value.mem, b.regs[PC]) != EBREAK
    ensures StepTheBreakpoint(d, coreStep).Some? <==> b'.Some?
    ensures b'.Some? ==>
              var d' := StepTheBreakpoint(d, coreStep).value;
              && Related(d'.table, d'.hart, b'.value)
              && forall a :: Planted(d'.table, a) <==> Planted(d.table, a)
  {
    var pc := b.regs[PC];
    assert d.hart.regs[PC] == Cleared(d.hart).regs[PC] == Cleared(b).regs[PC] == pc;
    if b'.Some? {
      StepOverReplants(d.table, t', coreStep(d.hart.(mem := m)).value, b'.value, pc);
    }
  }

  /** The first half: the breakpoint is lifted and the core makes one turn. */
  lemma StepOverMoves(t: Table, p: Hart, b: Hart, t': Table, m: Bytes)
    requires Related(t, p, b) && Obeys(t, b) && Planted(t, b.regs[PC]) && Fits(p.mem, b.regs[PC], 4)
    requires t' == Remove(t, p.mem, b.regs[PC]).0 && m == Remove(t, p.mem, b.regs[PC]).1
    ensures Move(p.(mem := m)).Some? <==> Move(b).Some?
    ensures Move(b).Some? ==> Related(t', Move(p.(mem := m)).value, Move(b).value)
    ensures Move(b).Some? ==>
              var pc := b.regs[PC]; Fits(Move(b).value.mem, pc, 4) && Rw(Move(b).value.mem, pc) != EBREAK
    ensures FirstEmpty(t', 0) < |t'| && forall a :: Planted(t', a) <==> Planted(t, a) && a != b.regs[PC]
  {
    var pc := b.regs[PC];
    var i := FindFrom(t, pc, 0);
    StepOverLifts(t, p, b, t', m);
    RemoveAgrees(t, p.mem, b.mem, pc);
    MoveTwins(t', p.(mem := m), b);
    if Move(b).Some? {
      PlantedWordSurvives(t, p, b, i);
      assert SlotAgrees(t[i], p.mem, b.mem);
    }
  }

  lemma ActIsTransparent(d: Debuggee, b: Hart, a: Action)
    requires Related(d.table, d.hart, b) && Proper(d, b, a)
    ensures Act(d, a).Some? <==> Bare(d, b, a).Some?
    ensures Act(d, a).Some? ==> Related(Act(d, a).value.table, Act(d, a).value.hart, Bare(d, b, a).value)
  {
    match a
    case Plant(addr) => InsertAgrees(d.table, d.hart.mem, b.mem, addr);
    case Unplant(addr) => RemoveAgrees(d.table, d.hart.mem, b.mem, addr);
    case Turn => TurnIsTransparent(d, b);
    case StepOver =>
      assert d.hart.regs[PC] == Cleared(d.hart).regs[PC] == Cleared(b).regs[PC] == b.regs[PC];
      if Planted(d.table, b.regs[PC]) { StepOverIsTransparent(d, b); }
  }

  // ----- whole debugging sessions

  /** The debugger performs the actions in order. */
  function Session(d: Debuggee, actions: seq<Action>): Option<Debuggee> { Play(Act, d, actions) }

  /** How many instructions of the program the session executes, counting one that fails. */
  function Retired(d: Debuggee, actions: seq<Action>): nat { Count(Act, Retires, d, actions) }

  /** Along the bare run, the program never uses a word as data that is planted at that time. */
  ghost predicate ProperSession(d: Debuggee, b: Hart, actions: seq<Action>) {
    Throughout(Act, Retires, Move, Proper, d, b, actions)
  }

  ghost predicate RelatedTo(d: Debuggee, b: Hart) { Related(d.table, d.hart, b) }

  /**
    Breakpoint transparency. However breakpoints are planted, lifted, hit and stepped over, the
    debugged program is at every point in the state the bare program reaches by executing as many
    instructions, up to the planted words themselves; it fails if and only if the bare program fails.
  */
  lemma SessionIsTransparent(d: Debuggee, b: Hart, actions: seq<Action>)
    requires RelatedTo(d, b) && ProperSession(d, b, actions)
    ensures Session(d, actions).Some? <==> Iterate(Move, b, Retired(d, actions)).Some?
    ensures Session(d, actions).Some? ==>
              RelatedTo(Session(d, actions).value, Iterate(Move, b, Retired(d, actions)).value)
  {
    forall x, y, a | RelatedTo(x, y) && Proper(x, y, a)
      ensures
        var x', y' := Act(x, a), Counterpart(Move, Retires(x, a), y);
        (x'.Some? <==> y'.Some?) && (x'.Some? ==> RelatedTo(x'.value, y'.value))
    {
      ActIsTransparent(x, y, a);
    }
    LockstepLifts(Act, Retires, Move, Proper, RelatedTo, d, b, actions);
  }

  /** A session that starts and ends without breakpoints leaves exactly what the bare run leaves. */
  lemma SessionLeavesNoTrace(d: Debuggee, actions: seq<Action>)
    requires Valid(d.hart) && (forall i :: 0 <= i < |d.table| ==> !d.table[i].full)
    requires ProperSession(d, d.hart, actions)
    requires Session(d, actions).Some? && forall a :: !Planted(Session(d, actions).value.table, a)
    ensures Iterate(Move, d.hart, Retired(d, actions)).Some?
    ensures
      var mine, bare := Session(d, actions).value.hart, Iterate(Move, d.hart, Retired(d, actions)).value;
      mine.mem == bare.mem && Valid(mine) && Valid(bare) && Cleared(mine) == Cleared(bare)
  {
    SessionIsTransparent(d, d.hart, actions);
    var d' := Session(d, actions).value;
    EmptyTableIsOriginal(d'.table, d'.hart.mem, Iterate(Move, d.hart, Retired(d, actions)).value.mem);
  }

  /** An aligned fetch never cuts a planted word. */
  lemma AlignedFetch(t: Table, p: Hart, b: Hart)
    requires Related(t, p, b) && b.regs[PC] % 4 == 0 && Fits(b.mem, b.regs[PC], 4)
    ensures Planted(t, b.regs[PC]) || Avoids(t, b.regs[PC], 4)
  {
    PlantedIff(t, b.regs[PC]);
    if !Planted(t, b.regs[PC]) { UncoveredWord(t, p.mem, b.mem, b.regs[PC]); }
  }
}
