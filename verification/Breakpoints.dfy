/**
  Software breakpoints: a table of 128 slots, each remembering the instruction word that an EBREAK in
  guest memory replaces.
*/
module Breakpoints {
  import opened Memory
  import Cpu

  const MAX_BREAKPOINTS := 128

  datatype Slot = Slot(addr: nat, instr: word, full: bool)
  datatype Ret = Error | Inserted | Removed | Stepped | NotFound

  type Table = seq<Slot>

  // ----- the operations

  /** The first empty slot at or after `i`. */
  function FirstEmpty(t: Table, i: nat): (r: nat)
    requires i <= |t|
    ensures i <= r <= |t| && (r < |t| ==> !t[r].full)
    ensures forall j :: i <= j < r ==> t[j].full
    decreases |t| - i
  {
    if i == |t| || !t[i].full then i else FirstEmpty(t, i + 1)
  }

  /** The first full slot for `addr` at or after `i`. */
  function FindFrom(t: Table, addr: nat, i: nat): (r: nat)
    requires i <= |t|
    ensures i <= r <= |t| && (r < |t| ==> t[r].full && t[r].addr == addr)
    ensures forall j :: i <= j < r ==> !(t[j].full && t[j].addr == addr)
    decreases |t| - i
  {
    if i == |t| || (t[i].full && t[i].addr == addr) then i else FindFrom(t, addr, i + 1)
  }

  predicate Planted(t: Table, addr: nat) { FindFrom(t, addr, 0) < |t| }

  function Insert(t: Table, m: Bytes, addr: nat): (r: (Table, Bytes, Ret))
    requires Fits(m, addr, 4)
    ensures |r.0| == |t| && |r.1| == |m|
  {
    var i := FirstEmpty(t, 0);
    if i == |t| then (t, m, Error)
    else if Rw(m, addr) == Cpu.EBREAK then (t, m, Inserted)
    else (t[i := Slot(addr, Rw(m, addr), true)], Ww(m, addr, Cpu.EBREAK), Inserted)
  }

  function Remove(t: Table, m: Bytes, addr: nat): (r: (Table, Bytes, Ret))
    requires Planted(t, addr) ==> Fits(m, addr, 4)
    ensures |r.0| == |t| && |r.1| == |m|
  {
    var i := FindFrom(t, addr, 0);
    if i == |t| then (t, m, NotFound)
    else (t[i := t[i].(full := false)], Ww(m, addr, t[i].instr), Removed)
  }

  /** The table and the guest memory it patches, updated in place. */
  class BreakpointTable {
    const slots: array<Slot>
    const vmem: Vmem

    constructor (vmem: Vmem)
      ensures slots.Length == 128 && fresh(slots) && this.vmem == vmem
      ensures forall i :: 0 <= i < slots.Length ==> !slots[i].full
    {
      slots := new Slot[MAX_BREAKPOINTS](_ => Slot(0, 0, false));
      this.vmem := vmem;
    }

    method InsertBreakpoint(addr: nat) returns (r: Ret)
      requires addr + 4 <= vmem.bytes.Length
      modifies slots, vmem.bytes
      ensures (slots[..], vmem.bytes[..], r) == Insert(old(slots[..]), old(vmem.bytes[..]), addr)
    {
      var i := 0;
      while i < slots.Length
        invariant 0 <= i <= slots.Length
        invariant slots[..] == old(slots[..]) && vmem.bytes[..] == old(vmem.bytes[..])
        invariant FirstEmpty(slots[..], 0) == FirstEmpty(slots[..], i)
      {
        if !slots[i].full {
          var instr := vmem.LoadWord(addr);
          if instr != Cpu.EBREAK {
            vmem.StoreWord(addr, Cpu.EBREAK);
            slots[i] := Slot(addr, instr, true);
          }
          return Inserted;
        }
        i := i + 1;
      }
      return Error;
    }

    method FindBreakpoint(addr: nat) returns (i: nat)
      ensures i == FindFrom(slots[..], addr, 0)
    {
      i := 0;
      while i < slots.Length
        invariant 0 <= i <= slots.Length
        invariant FindFrom(slots[..], addr, 0) == FindFrom(slots[..], addr, i)
      {
        if slots[i].addr == addr && slots[i].full { return; }
        i := i + 1;
      }
    }

    method RemoveBreakpoint(addr: nat) returns (r: Ret)
      requires Planted(slots[..], addr) ==> addr + 4 <= vmem.bytes.Length
      modifies slots, vmem.bytes
      ensures (slots[..], vmem.bytes[..], r) == Remove(old(slots[..]), old(vmem.bytes[..]), addr)
    {
      var i := FindBreakpoint(addr);
      if i == slots.Length { return NotFound; }
      vmem.StoreWord(addr, slots[i].instr);
      slots[i] := slots[i].(full := false);
      return Removed;
    }

    /** The first core that stands on a breakpoint, given the PCs of all cores. */
    method BreakpointHart(pcs: seq<nat>) returns (hart: int)
      ensures hart == -1 <==> forall i :: 0 <= i < |pcs| ==> !Planted(slots[..], pcs[i])
      ensures hart != -1 ==> 0 <= hart < |pcs| && Planted(slots[..], pcs[hart])
                             && forall i :: 0 <= i < hart ==> !Planted(slots[..], pcs[i])
    {
      for i := 0 to |pcs|
        invariant forall j :: 0 <= j < i ==> !Planted(slots[..], pcs[j])
      {
        var s := FindBreakpoint(pcs[i]);
        if s < slots.Length { return i; }
      }
      return -1;
    }
  }

  // ----- agreement of the table with memory

  /** Byte `k` belongs to the word of a full slot. */
  predicate Covers(s: Slot, k: int) { s.full && s.addr <= k < s.addr + 4 }

  predicate Covered(t: Table, k: int) { exists i :: 0 <= i < |t| && Covers(t[i], k) }

  /** Full slot `i` remembers the original word, memory has EBREAK in its place. */
  predicate SlotAgrees(s: Slot, m: Bytes, orig: Bytes) {
    s.full ==>
      && s.addr % 4 == 0 && Fits(m, s.addr, 4) && Fits(orig, s.addr, 4)
      && s.instr == Rw(orig, s.addr) && s.instr != Cpu.EBREAK && Rw(m, s.addr) == Cpu.EBREAK
  }

  /** Table and memory together stand for the unpatched memory `orig`. */
  ghost predicate Agrees(t: Table, m: Bytes, orig: Bytes) {
    && |m| == |orig|
    && (forall i :: 0 <= i < |t| ==> SlotAgrees(t[i], m, orig))
    && Distinct(t)
    && (forall k :: 0 <= k < |m| && !Covered(t, k) ==> m[k] == orig[k])
  }

  /** Aligned words coincide or are disjoint. */
  lemma AlignedWords(a: nat, b: nat, k: int)
    requires a % 4 == 0 && b % 4 == 0 && a <= k < a + 4 && b <= k < b + 4
    ensures a == b
  {}

  /** A word none of whose bytes is covered is original. */
  lemma UncoveredWord(t: Table, m: Bytes, orig: Bytes, a: nat)
    requires Agrees(t, m, orig) && a % 4 == 0 && Fits(m, a, 4)
    requires forall i :: 0 <= i < |t| ==> !(t[i].full && t[i].addr == a)
    ensures forall k :: a <= k < a + 4 ==> !Covered(t, k)
    ensures Rw(m, a) == Rw(orig, a)
  {
    forall k | a <= k < a + 4
      ensures !Covered(t, k)
    {
      forall i | 0 <= i < |t| && Covers(t[i], k)
        ensures false
      {
        assert SlotAgrees(t[i], m, orig);
        AlignedWords(a, t[i].addr, k);
      }
    }
  }

  lemma AlignedDisjoint(a: nat, b: nat)
    requires a % 4 == 0 && b % 4 == 0 && a != b
    ensures a + 4 <= b || b + 4 <= a
  {}

  lemma OtherWord(m: Bytes, a: nat, v: word, b: nat)
    requires Fits(m, a, 4) && Fits(m, b, 4) && (a + 4 <= b || b + 4 <= a)
    ensures Rw(Ww(m, a, v), b) == Rw(m, b)
  {}

  /** A slot other than the one at `a` is not disturbed by writing the word at `a`. */
  lemma OtherSlot(s: Slot, m: Bytes, orig: Bytes, a: nat, v: word)
    requires SlotAgrees(s, m, orig) && a % 4 == 0 && Fits(m, a, 4) && (s.full ==> s.addr != a)
    ensures SlotAgrees(s, Ww(m, a, v), orig)
  {
    if s.full {
      AlignedDisjoint(s.addr, a);
      OtherWord(m, a, v, s.addr);
    }
  }

  predicate Distinct(t: Table) {
    forall i, j :: 0 <= i < j < |t| && t[i].full && t[j].full ==> t[i].addr != t[j].addr
  }

  /** The slots still agree after the word at `a` is overwritten, if slot `i` is the one for it. */
  lemma SlotsAfterWrite(t: Table, m: Bytes, orig: Bytes, i: nat, t': Table, a: nat, v: word)
    requires Agrees(t, m, orig) && a % 4 == 0 && Fits(m, a, 4) && i < |t| == |t'| && t' == t[i := t'[i]]
    requires forall j :: 0 <= j < |t| && j != i && t[j].full ==> t[j].addr != a
    requires SlotAgrees(t'[i], Ww(m, a, v), orig)
    ensures forall j :: 0 <= j < |t'| ==> SlotAgrees(t'[j], Ww(m, a, v), orig)
  {
    forall j | 0 <= j < |t'|
      ensures SlotAgrees(t'[j], Ww(m, a, v), orig)
    {
      if j != i {
        assert SlotAgrees(t[j], m, orig);
        OtherSlot(t[j], m, orig, a, v);
      }
    }
  }

  lemma OtherByte(m: Bytes, a: nat, v: word, k: int)
    requires Fits(m, a, 4) && 0 <= k < |m| && !(a <= k < a + 4)
    ensures Ww(m, a, v)[k] == m[k]
  {}

  /** What other slots cover stays covered when slot `i` changes. */
  lemma StillCovered(t: Table, i: nat, t': Table, k: int)
    requires i < |t| == |t'| && t' == t[i := t'[i]] && Covered(t, k) && !Covers(t[i], k)
    ensures Covered(t', k)
  {
    var j :| 0 <= j < |t| && Covers(t[j], k);
    assert Covers(t'[j], k);
  }

  /** Filling an empty slot with an original word. */
  lemma PlantAgrees(t: Table, m: Bytes, orig: Bytes, a: nat, i: nat, t': Table)
    requires Agrees(t, m, orig) && a % 4 == 0 && Fits(m, a, 4) && i < |t| && !t[i].full
    requires Rw(m, a) == Rw(orig, a) != Cpu.EBREAK && t' == t[i := Slot(a, Rw(m, a), true)]
    requires forall j :: 0 <= j < |t| ==> !(t[j].full && t[j].addr == a)
    ensures Agrees(t', Ww(m, a, Cpu.EBREAK), orig)
  {
    ReadBack(m, a, Cpu.EBREAK);
    SlotsAfterWrite(t, m, orig, i, t', a, Cpu.EBREAK);
    forall k | 0 <= k < |m| && !Covered(t', k)
      ensures Ww(m, a, Cpu.EBREAK)[k] == orig[k]
    {
      PlantByte(t, m, orig, a, i, t', k);
    }
  }

  lemma PlantByte(t: Table, m: Bytes, orig: Bytes, a: nat, i: nat, t': Table, k: int)
    requires Agrees(t, m, orig) && Fits(m, a, 4) && i < |t| == |t'| && !t[i].full
    requires t' == t[i := t'[i]] && t'[i].full && t'[i].addr == a
    requires 0 <= k < |m| && !Covered(t', k)
    ensures Ww(m, a, Cpu.EBREAK)[k] == orig[k]
  {
    assert !Covers(t'[i], k);
    OtherByte(m, a, Cpu.EBREAK, k);
    if Covered(t, k) { StillCovered(t, i, t', k); }
  }

  /** Writing an original word back and emptying its slot. */
  lemma LiftAgrees(t: Table, m: Bytes, orig: Bytes, i: nat, t': Table)
    requires Agrees(t, m, orig) && i < |t| && t[i].full && t' == t[i := t[i].(full := false)]
    ensures SlotAgrees(t[i], m, orig)
    ensures Agrees(t', Ww(m, t[i].addr, t[i].instr), orig)
  {
    var a := t[i].addr;
    assert SlotAgrees(t[i], m, orig);
    SlotsAfterWrite(t, m, orig, i, t', a, t[i].instr);
    forall k | 0 <= k < |m| && !Covered(t', k)
      ensures Ww(m, a, t[i].instr)[k] == orig[k]
    {
      LiftByte(t, m, orig, i, t', k);
    }
  }

  lemma LiftByte(t: Table, m: Bytes, orig: Bytes, i: nat, t': Table, k: int)
    requires Agrees(t, m, orig) && i < |t| && t[i].full && t' == t[i := t[i].(full := false)]
    requires 0 <= k < |m| && !Covered(t', k) && SlotAgrees(t[i], m, orig)
    ensures Ww(m, t[i].addr, t[i].instr)[k] == orig[k]
  {
    var a := t[i].addr;
    if a <= k < a + 4 {
      WordBytes(m, orig, a, k);
    } else {
      OtherByte(m, a, t[i].instr, k);
      if Covered(t, k) { StillCovered(t, i, t', k); }
    }
  }

  lemma WordBytes(m: Bytes, orig: Bytes, a: nat, k: int)
    requires Fits(m, a, 4) && Fits(orig, a, 4) && a <= k < a + 4
    ensures Ww(m, a, Rw(orig, a))[k] == orig[k]
  {
    BytesOfWord(orig[a], orig[a + 1], orig[a + 2], orig[a + 3]);
  }

  lemma PlantedIff(t: Table, a: nat)
    ensures Planted(t, a) <==> exists i :: 0 <= i < |t| && t[i].full && t[i].addr == a
  {}

  /** Where nothing is planted, aligned memory is original. */
  lemma NotPlanted(t: Table, m: Bytes, orig: Bytes, a: nat)
    requires Agrees(t, m, orig) && a % 4 == 0 && Fits(m, a, 4) && !Planted(t, a)
    ensures Rw(m, a) == Rw(orig, a)
  {
    PlantedIff(t, a);
    UncoveredWord(t, m, orig, a);
  }

  /**
    Insertion keeps the original memory. It plants the breakpoint, and memory reads EBREAK there, unless
    the table is full; where the program itself has an EBREAK nothing is planted.
  */
  lemma InsertAgrees(t: Table, m: Bytes, orig: Bytes, a: nat)
    requires Agrees(t, m, orig) && a % 4 == 0 && Fits(m, a, 4)
    ensures
      var (t', m', r) := Insert(t, m, a);
      && |t'| == |t| && Agrees(t', m', orig)
      && (r == Inserted <==> FirstEmpty(t, 0) < |t|)
      && (r == Inserted ==> Rw(m', a) == Cpu.EBREAK)
  {
    var i := FirstEmpty(t, 0);
    if i < |t| && Rw(m, a) != Cpu.EBREAK {
      forall j | 0 <= j < |t|
        ensures !(t[j].full && t[j].addr == a)
      {
        assert SlotAgrees(t[j], m, orig);
      }
      UncoveredWord(t, m, orig, a);
      PlantAgrees(t, m, orig, a, i, t[i := Slot(a, Rw(m, a), true)]);
      ReadBack(m, a, Cpu.EBREAK);
    }
  }

  /** A breakpoint planted over any other instruction is the only new one. */
  lemma InsertPlants(t: Table, m: Bytes, a: nat, b: nat)
    requires Fits(m, a, 4) && FirstEmpty(t, 0) < |t| && Rw(m, a) != Cpu.EBREAK
    ensures Planted(Insert(t, m, a).0, b) <==> Planted(t, b) || b == a
  {
    var i, t' := FirstEmpty(t, 0), Insert(t, m, a).0;
    PlantedIff(t, b);
    PlantedIff(t', b);
    assert t'[i].full && t'[i].addr == a;
    if j :| 0 <= j < |t| && t[j].full && t[j].addr == b {
      assert t'[j].full && t'[j].addr == b;
    }
  }

  /** Inserting again changes nothing, but is reported as an error when the table is full by then. */
  lemma InsertIsIdempotent(t: Table, m: Bytes, orig: Bytes, a: nat)
    requires Agrees(t, m, orig) && a % 4 == 0 && Fits(m, a, 4) && Insert(t, m, a).2 == Inserted
    ensures
      var (t', m', _) := Insert(t, m, a);
      && Insert(t', m', a).0 == t' && Insert(t', m', a).1 == m'
      && (Insert(t', m', a).2 == Inserted <==> FirstEmpty(t', 0) < |t'|)
  {
    InsertAgrees(t, m, orig, a);
  }

  /** Removal keeps the original memory, unplants this address and no other. */
  lemma RemoveAgrees(t: Table, m: Bytes, orig: Bytes, a: nat)
    requires Agrees(t, m, orig)
    ensures Planted(t, a) ==> Fits(m, a, 4)
    ensures
      var (t', m', r) := Remove(t, m, a);
      && |t'| == |t| && Agrees(t', m', orig)
      && (r == Removed <==> Planted(t, a))
      && (forall b :: Planted(t', b) <==> Planted(t, b) && b != a)
  {
    var i := FindFrom(t, a, 0);
    if i < |t| {
      assert SlotAgrees(t[i], m, orig);
      LiftAgrees(t, m, orig, i, t[i := t[i].(full := false)]);
    }
    var t' := Remove(t, m, a).0;
    forall b
      ensures Planted(t', b) <==> Planted(t, b) && b != a
    {
      PlantedIff(t, b);
      PlantedIff(t', b);
      RemovedPlanted(t, t', i, a, b);
    }
  }

  lemma RemovedPlanted(t: Table, t': Table, i: nat, a: nat, b: nat)
    requires i == FindFrom(t, a, 0) && t' == if i < |t| then t[i := t[i].(full := false)] else t
    requires Distinct(t)
    ensures (exists j :: 0 <= j < |t'| && t'[j].full && t'[j].addr == b) <==>
              b != a && exists j :: 0 <= j < |t| && t[j].full && t[j].addr == b
  {
    if j :| 0 <= j < |t| && t[j].full && t[j].addr == b {
      if b != a { assert t'[j].full && t'[j].addr == b; }
    }
  }

  // ----- sequences of operations

  datatype Op = Place(addr: nat) | Lift(addr: nat)

  function Perform(t: Table, m: Bytes, op: Op): (r: (Table, Bytes))
    requires Fits(m, op.addr, 4)
    ensures |r.1| == |m|
  {
    var p := match op case Place(a) => Insert(t, m, a) case Lift(a) => Remove(t, m, a);
    (p.0, p.1)
  }

  function PerformAll(t: Table, m: Bytes, ops: seq<Op>): (r: (Table, Bytes))
    requires forall op :: op in ops ==> op.addr + 4 <= |m|
    ensures |r.1| == |m|
    decreases |ops|
  {
    if ops == [] then (t, m)
    else var p := Perform(t, m, ops[0]); PerformAll(p.0, p.1, ops[1..])
  }

  lemma PerformAgrees(t: Table, m: Bytes, orig: Bytes, op: Op)
    requires Agrees(t, m, orig) && Fits(m, op.addr, 4) && (op.Place? ==> op.addr % 4 == 0)
    ensures Agrees(Perform(t, m, op).0, Perform(t, m, op).1, orig)
  {
    match op
    case Place(a) => InsertAgrees(t, m, orig, a);
    case Lift(a) => RemoveAgrees(t, m, orig, a);
  }

  /** Whatever is inserted and removed, table and memory keep standing for the same original memory. */
  lemma {:induction false} PerformAllAgrees(t: Table, m: Bytes, orig: Bytes, ops: seq<Op>)
    requires Agrees(t, m, orig)
    requires forall op :: op in ops ==> op.addr + 4 <= |m| && (op.Place? ==> op.addr % 4 == 0)
    ensures Agrees(PerformAll(t, m, ops).0, PerformAll(t, m, ops).1, orig)
    decreases |ops|
  {
    if ops != [] {
      PerformAgrees(t, m, orig, ops[0]);
      var p := Perform(t, m, ops[0]);
      PerformAllAgrees(p.0, p.1, orig, ops[1..]);
    }
  }

  /** Once no breakpoint is planted, memory is the original memory, byte for byte. */
  lemma EmptyTableIsOriginal(t: Table, m: Bytes, orig: Bytes)
    requires Agrees(t, m, orig) && forall a :: !Planted(t, a)
    ensures m == orig
  {
    forall k | 0 <= k < |m|
      ensures m[k] == orig[k]
    {
      if Covered(t, k) {
        var i :| 0 <= i < |t| && Covers(t[i], k);
        PlantedIff(t, t[i].addr);
        assert false;
      }
    }
  }

  /** Remove the breakpoints at the given addresses, in order. */
  function RemoveAll(t: Table, m: Bytes, addrs: seq<nat>): (r: (Table, Bytes))
    requires forall i :: 0 <= i < |addrs| ==> addrs[i] + 4 <= |m|
    decreases |addrs|
  {
    if addrs == [] then (t, m)
    else var p := Remove(t, m, addrs[0]); RemoveAll(p.0, p.1, addrs[1..])
  }

  /** Removing every planted breakpoint, in any order, restores memory exactly. */
  lemma {:induction false} RemovingAllRestores(t: Table, m: Bytes, orig: Bytes, addrs: seq<nat>)
    requires Agrees(t, m, orig)
    requires forall i :: 0 <= i < |addrs| ==> addrs[i] + 4 <= |m|
    requires forall a :: Planted(t, a) ==> a in addrs
    ensures RemoveAll(t, m, addrs).1 == orig
    decreases |addrs|
  {
    if addrs == [] {
      EmptyTableIsOriginal(t, m, orig);
    } else {
      RemoveAgrees(t, m, orig, addrs[0]);
      var p := Remove(t, m, addrs[0]);
      RemovingAllRestores(p.0, p.1, orig, addrs[1..]);
    }
  }
}
