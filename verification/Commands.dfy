/** The arguments of the stub's commands: a row of extractions, each of which may refuse or abort. */
module Commands {
  import opened Memory
  import opened Partial
  import opened Strtol
  import opened Tokenizer

  /** One extraction: a 32- or 64-bit number up to a terminator. */
  datatype Arg = Arg32(term: Term) | Arg64(term: Term)

  /** The values, or a refused number, or an extraction called beyond the end, which aborts. */
  datatype Parsed = Values(values: seq<nat>, rest: Option<Bytes>) | Refused | Aborted

  function Number(token: Bytes, arg: Arg): Option<nat> {
    if arg.Arg32? then Number32(token) else Number64(token)
  }

  function ParseArgs(rest: Option<Bytes>, args: seq<Arg>): (r: Parsed)
    ensures r.Values? ==> |r.values| == |args|
    decreases |args|
  {
    if args == [] then Values([], rest)
    else match rest
      case None => Aborted
      case Some(s) =>
        var k := TokenLen(s, args[0].term);
        match Number(s[..k], args[0])
        case None => Refused
        case Some(v) =>
          Behind(v, ParseArgs(Beyond(s, k), args[1..]))
  }

  function Behind(v: nat, more: Parsed): Parsed {
    match more case Values(vs, rest) => Values([v] + vs, rest) case other => other
  }

  function Comma(): Term { Some(',' as int) }
  function Colon(): Term { Some(':' as int) }
  function Semicolon(): Term { Some(';' as int) }
  function Equals(): Term { Some('=' as int) }

  function ReadMemArgs(): seq<Arg> { [Arg64(Comma()), Arg64(None)] }
  function WriteMemArgs(): seq<Arg> { [Arg64(Comma()), Arg64(Colon())] }
  function WriteRegArgs(): seq<Arg> { [Arg32(Equals()), Arg64(None)] }
  function InsertArgs(): seq<Arg> { [Arg32(Comma()), Arg64(Comma()), Arg32(Semicolon())] }
  function RemoveArgs(): seq<Arg> { [Arg32(Comma()), Arg64(Comma()), Arg32(None)] }

  method ExtractOne(data: array<byte>, end: nat, cursor: nat, arg: Arg) returns (v: Option<nat>, next: nat)
    requires cursor <= end < data.Length
    modifies data
    ensures cursor < next <= end + 1
    ensures
      var s := old(data[..])[cursor..end];
      var k := TokenLen(s, arg.term);
      v == Number(s[..k], arg) && Rest(data[..], next, end) == Beyond(s, k)
    ensures forall i :: 0 <= i < cursor || end < i < data.Length ==> data[i] == old(data[i])
  {
    if arg.Arg32? {
      v, next := ExtractUint32(data, end, cursor, arg.term);
    } else {
      v, next := ExtractUint64(data, end, cursor, arg.term);
    }
  }

  /** The extractions one after the other, on the buffer in place. */
  method Extract(data: array<byte>, end: nat, cursor: nat, args: seq<Arg>) returns (r: Parsed, next: nat)
    requires cursor <= end + 1 && end < data.Length
    modifies data
    ensures r == ParseArgs(Rest(old(data[..]), cursor, end), args)
    ensures cursor <= next <= end + 1
    ensures r.Values? ==> r.rest == Rest(data[..], next, end)
    ensures forall i :: 0 <= i < cursor || end < i < data.Length ==> data[i] == old(data[i])
    decreases |args|
  {
    next := cursor;
    if args == [] { return Values([], Rest(data[..], cursor, end)), next; }
    if cursor == end + 1 { return Aborted, next; }
    var v: Option<nat>;
    v, next := ExtractOne(data, end, cursor, args[0]);
    if v.None? { return Refused, next; }
    var more;
    more, next := Extract(data, end, next, args[1..]);
    r := Behind(v.value, more);
  }

  // ----- laws

  predicate Takes(n: nat, arg: Arg) { if arg.Arg32? then n <= UINT32_MAX else n < LONG_MAX }

  /** The numbers written in hexadecimal, each with its terminator behind it, and what follows the last. */
  function Written(values: seq<nat>, args: seq<Arg>, tail: Option<Bytes>): Bytes
    requires |values| == |args| > 0 && Terminated(args) && (tail.Some? ==> args[|args| - 1].term.Some?)
    decreases |values|
  {
    var first := HexNumber(values[0]);
    if |values| == 1 then (if tail.None? then first else first + [args[0].term.value] + tail.value)
    else first + [args[0].term.value] + Written(values[1..], args[1..], tail)
  }

  /** Every argument but the last ends at a terminator that no number contains; the last at the end or at one. */
  predicate Terminated(args: seq<Arg>) {
    forall i :: 0 <= i < |args| ==>
      && (i < |args| - 1 ==> args[i].term.Some?)
      && (args[i].term.Some? ==> !IsHex(args[i].term.value))
  }

  lemma NumberToken(n: nat, arg: Arg)
    ensures Number(HexNumber(n), arg) == if Takes(n, arg) then Some(n) else None
  {
    NumbersExactly(n);
  }

  lemma HexNumberLacks(n: nat, c: byte)
    requires !IsHex(c)
    ensures c !in HexNumber(n) && HexNumber(n) != []
  {
    HexNumberDigits(n);
  }

  lemma LastToken(n: nat, arg: Arg)
    requires arg.term.Some? ==> !IsHex(arg.term.value)
    ensures var s := HexNumber(n); TokenLen(s, arg.term) == |s| && s[..|s|] == s && Beyond(s, |s|) == None
  {
    var s := HexNumber(n);
    if arg.term.Some? { HexNumberLacks(n, arg.term.value); }
    assert s[..|s|] == s;
  }

  predicate AllTaken(values: seq<nat>, args: seq<Arg>)
    requires |values| == |args|
  {
    forall i :: 0 <= i < |args| ==> Takes(values[i], args[i])
  }

  lemma AllTakenHead(values: seq<nat>, args: seq<Arg>)
    requires |values| == |args| > 0
    ensures AllTaken(values, args) <==> Takes(values[0], args[0]) && AllTaken(values[1..], args[1..])
  {}

  /** The number in front, what is left behind it, and both together. */
  lemma FirstArg(n: nat, args: seq<Arg>, rest: Option<Bytes>, s: Bytes)
    requires |args| > 0 && (args[0].term.Some? ==> !IsHex(args[0].term.value))
    requires rest.Some? ==> args[0].term.Some?
    requires s == if rest.None? then HexNumber(n) else HexNumber(n) + [args[0].term.value] + rest.value
    ensures ParseArgs(Some(s), args) ==
            if !Takes(n, args[0]) then Refused else Behind(n, ParseArgs(rest, args[1..]))
  {
    NumberToken(n, args[0]);
    if rest.None? {
      LastToken(n, args[0]);
    } else {
      HexNumberLacks(n, args[0].term.value);
      FirstFieldCut(HexNumber(n), args[0].term.value, rest.value, s);
    }
  }

  /** Round trip: numbers written in hexadecimal are extracted again, with the rest, if and only if all fit. */
  lemma {:induction false} ArgsRoundTrip(values: seq<nat>, args: seq<Arg>, tail: Option<Bytes>)
    requires |values| == |args| > 0 && Terminated(args) && (tail.Some? ==> args[|args| - 1].term.Some?)
    ensures ParseArgs(Some(Written(values, args, tail)), args) ==
            if AllTaken(values, args) then Values(values, tail) else Refused
    decreases |values|
  {
    var s, n := Written(values, args, tail), values[0];
    AllTakenHead(values, args);
    if |values| == 1 {
      FirstArg(n, args, tail, s);
      assert values == [n] + [];
    } else {
      FirstArg(n, args, Some(Written(values[1..], args[1..], tail)), s);
      ArgsRoundTrip(values[1..], args[1..], tail);
      assert values == [n] + values[1..];
    }
  }

  // ----- the bounds check of memory packets

  const TWO_TO_64 := 0x1_0000_0000_0000_0000
  const TWO_TO_32 := 0x1_0000_0000

  /** The check, in 64-bit arithmetic that wraps. */
  predicate InMemory(addr: nat, length: nat, size: nat) { (addr + length) % TWO_TO_64 < size }

  /** The cast of an address to 32 bits. */
  function Low32(addr: nat): (r: nat)
    ensures addr < TWO_TO_32 ==> r == addr
  {
    addr % TWO_TO_32
  }

  /** Numbers below LONG_MAX do not wrap, so the check is exact and the cast of the address to 32 bits lossless. */
  lemma CheckIsExact(addr: nat, length: nat, size: nat)
    requires addr < LONG_MAX && length < LONG_MAX && size <= TWO_TO_32
    ensures addr + length < TWO_TO_64
    ensures InMemory(addr, length, size) <==> addr + length < size
    ensures InMemory(addr, length, size) ==> Low32(addr) == addr
  {}

  /** Two extracted numbers are such numbers. */
  lemma AddressBound(rest: Option<Bytes>, args: seq<Arg>)
    requires |args| == 2 && args[0].Arg64? && args[1].Arg64?
    ensures
      var p := ParseArgs(rest, args);
      p.Values? ==> p.values[0] < LONG_MAX && p.values[1] < LONG_MAX && p.values[0] + p.values[1] < TWO_TO_64
  {
    var p := ParseArgs(rest, args);
    if p.Values? {
      ArgBound(rest, args, 0);
      ArgBound(rest, args, 1);
    }
  }

  /** So any `m` or `M` that passes the check has a range inside memory, and its address survives the cast. */
  lemma RangeIsInMemory(rest: Option<Bytes>, args: seq<Arg>, size: nat)
    requires |args| == 2 && args[0].Arg64? && args[1].Arg64? && size <= TWO_TO_32
    ensures
      var p := ParseArgs(rest, args);
      p.Values? ==>
        var addr, length := p.values[0], p.values[1];
        && (InMemory(addr, length, size) <==> addr + length < size)
        && (InMemory(addr, length, size) ==> Low32(addr) == addr)
  {
    AddressBound(rest, args);
    var p := ParseArgs(rest, args);
    if p.Values? { CheckIsExact(p.values[0], p.values[1], size); }
  }

  lemma {:induction false} ArgBound(rest: Option<Bytes>, args: seq<Arg>, i: nat)
    requires i < |args| && ParseArgs(rest, args).Values?
    ensures Takes(ParseArgs(rest, args).values[i], args[i])
    decreases |args|
  {
    var k := TokenLen(rest.value, args[0].term);
    if i > 0 { ArgBound(Beyond(rest.value, k), args[1..], i - 1); }
  }

  /** An `m` packet aborts the program exactly when its number is good and no comma follows its first character. */
  lemma ReadMemAborts(s: Bytes)
    ensures ParseArgs(Some(s), ReadMemArgs()).Aborted?
            <==> Number64(s).Some? && forall i :: 1 <= i < |s| ==> s[i] != ',' as int
  {
    var args := ReadMemArgs();
    var k := TokenLen(s, Comma());
    assert args[1..] == [Arg64(None)];
    assert s[..|s|] == s;
    assert [Arg64(None)][1..] == [];
    if k < |s| { OneArgNeverAborts(s[k + 1..]); }
  }

  lemma OneArgNeverAborts(s: Bytes)
    ensures !ParseArgs(Some(s), [Arg64(None)]).Aborted?
  {
    var k := TokenLen(s, None);
    assert ParseArgs(Beyond(s, k), [Arg64(None)][1..]) == Values([], Beyond(s, k));
  }
}
