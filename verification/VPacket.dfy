/** The `v` packets: which action of which core a `vCont` asks for. */
module VPacket {
  import opened Memory
  import opened Partial
  import opened Strtol
  import opened Tokenizer
  import opened Commands

  datatype Plan =
    | NoCommand                // neither vCont nor vCont?
    | AskFeatures              // vCont?
    | Refuse                   // a bad number, thread or action
    | AbortPlan                // an extraction beyond the end
    | OverrunPlan              // a look beyond the buffer
    | ContinueAll
    | ContinueCore(core: nat)
    | StepCore(core: nat)

  /** sad_extract_long: refused when saturated. */
  function NumberLong(token: Bytes): Option<int> {
    var v := Strtol16(token);
    if v == LONG_MAX || v == LONG_MIN then None else Some(v)
  }

  /** The core a thread id stands for, -1 for all; ids count from one, and 0 is replaced by the selected core. */
  function ThreadOf(id: int, smp: nat, selected: nat): (r: Option<int>)
    ensures r.Some? ==> -1 <= r.value
  {
    if id - 1 >= smp || id < -1 then None
    else
      var chosen := if id == 0 then selected else id;
      Some(if chosen > 0 then chosen - 1 else chosen)
  }

  /** A thread id from one on stands for the core before it, and -1 for all cores. */
  lemma ThreadIds(id: int, smp: nat, selected: nat)
    requires id != 0
    ensures ThreadOf(id, smp, selected) ==
            if id == -1 then Some(-1) else if 1 <= id <= smp then Some(id - 1) else None
  {}

  /** Thread id 0 stands for the selected core if and only if that is the first: it is counted from one again. */
  lemma ThreadZero(smp: nat, selected: nat)
    ensures ThreadOf(0, smp, selected) == Some(selected) <==> selected == 0
    ensures ThreadOf(0, 2, 1) == Some(0)
  {}

  function PlanOf(action: byte, thread: Option<int>): Plan
    requires thread.Some? ==> -1 <= thread.value
  {
    if thread.None? then Refuse
    else if action == 'c' as int then (if thread.value == -1 then ContinueAll else ContinueCore(thread.value))
    else if action == 's' as int && thread.value != -1 then StepCore(thread.value)
    else Refuse
  }

  /** The plan of a vCont whose action is at `at`, in a buffer that was cut before it. */
  function PlanAt(d: Bytes, at: nat, end: nat, smp: nat, selected: nat): Plan
    requires at <= end + 1 <= |d|
  {
    if at + 1 >= |d| then OverrunPlan
    else if d[at + 1] != ':' as int then PlanOf(d[at], ThreadOf(-1, smp, selected))
    else if at + 2 > end + 1 then OverrunPlan
    else if at + 2 == end + 1 then AbortPlan
    else
      var s := d[at + 2..end];
      match NumberLong(s[..TokenLen(s, Colon())])
      case None => Refuse
      case Some(id) => PlanOf(d[at], ThreadOf(id, smp, selected))
  }

  function Plans(d: Bytes, start: nat, end: nat, smp: nat, selected: nat): Plan
    requires start <= end < |d|
  {
    var s := d[start..end];
    var k := TokenLen(s, Semicolon());
    var command := CString(s[..k]);
    if command == Ascii("vCont?") then AskFeatures
    else if command == Ascii("vCont") then PlanAt(d[start + k := 0], start + k + 1, end, smp, selected)
    else NoCommand
  }

  /** A planned core exists: a selected core is one of them, and so are the others. */
  lemma PlannedCore(d: Bytes, start: nat, end: nat, smp: nat, selected: nat)
    requires start <= end < |d| && selected < smp
    ensures var p := Plans(d, start, end, smp, selected); p.ContinueCore? || p.StepCore? ==> p.core < smp
  {}

  // ----- what the packets mean

  /** The buffer holds the payload, with the `#` behind it. */
  predicate Holds(d: Bytes, start: nat, end: nat, text: Bytes) {
    start <= end < |d| && d[start..end] == text && d[end] == HASH
  }

  function VCont(): Bytes { ['v' as int, 'C' as int, 'o' as int, 'n' as int, 't' as int] }

  lemma VContText()
    ensures Ascii("vCont") == VCont() && Ascii("vCont?") == VCont() + ['?' as int]
    ensures CString(VCont()) == VCont()
  {
    NoNul(VCont());
  }

  lemma {:induction false} NoNul(s: Bytes)
    requires 0 !in s
    ensures CString(s) == s
    decreases |s|
  {
    if s != [] { NoNul(s[1..]); }
  }

  /** Behind `vCont;` comes the plan of the action. */
  lemma ActionPlan(d: Bytes, start: nat, end: nat, smp: nat, selected: nat, rest: Bytes)
    requires Holds(d, start, end, VCont() + [';' as int] + rest)
    ensures start + 6 <= end + 1 <= |d|
    ensures Plans(d, start, end, smp, selected) == PlanAt(d[start + 5 := 0], start + 6, end, smp, selected)
  {
    var s := d[start..end];
    VContText();
    FirstFieldCut(VCont(), ';' as int, rest, s);
  }

  lemma AfterTheCut(d: Bytes, start: nat, end: nat, rest: Bytes)
    requires Holds(d, start, end, VCont() + [';' as int] + rest)
    ensures var c := d[start + 5 := 0]; c[start + 6..end] == rest && c[end] == HASH && end == start + 6 + |rest|
  {
    var c := d[start + 5 := 0];
    assert |d[start..end]| == 6 + |rest|;
    assert d[start..end][6..] == rest;
    assert c[start + 6..end] == d[start + 6..end] == d[start..end][6..];
  }

  /** An action without a thread is for all cores. */
  lemma BareAction(d: Bytes, start: nat, end: nat, smp: nat, selected: nat, action: byte)
    requires Holds(d, start, end, VCont() + [';' as int] + [action])
    ensures Plans(d, start, end, smp, selected) == PlanOf(action, Some(-1))
  {
    ActionPlan(d, start, end, smp, selected, [action]);
    AfterTheCut(d, start, end, [action]);
    var c := d[start + 5 := 0];
    assert c[start + 6] == c[start + 6..end][0] == action;
  }

  /** An action with a thread id. */
  lemma ThreadAction(d: Bytes, start: nat, end: nat, smp: nat, selected: nat, action: byte, id: Bytes)
    requires Holds(d, start, end, VCont() + [';' as int] + ([action, ':' as int] + id)) && id != [] && ':' as int !in id
    ensures Plans(d, start, end, smp, selected) ==
            match NumberLong(id) case None => Refuse case Some(n) => PlanOf(action, ThreadOf(n, smp, selected))
  {
    var rest := [action, ':' as int] + id;
    ActionPlan(d, start, end, smp, selected, rest);
    AfterTheCut(d, start, end, rest);
    var c, at := d[start + 5 := 0], start + 6;
    assert c[at] == c[at..end][0] == action && c[at + 1] == c[at..end][1] == ':' as int;
    assert c[at + 2..end] == c[at..end][2..] == id;
    WholeToken(id, ':' as int);
  }

  lemma WholeToken(id: Bytes, term: byte)
    requires term !in id
    ensures TokenLen(id, Some(term)) == |id| && id[..|id|] == id
  {
    assert id[..|id|] == id;
  }

  lemma ThreadNumbers(n: nat)
    ensures n < LONG_MAX ==> NumberLong(HexNumber(n)) == Some(n)
    ensures NumberLong([MINUS] + HexNumber(1)) == Some(-1)
    ensures HexNumber(n) != [] && ':' as int !in HexNumber(n) && ':' as int !in [MINUS] + HexNumber(n)
  {
    NumbersAreReadBack(n);
    SignsAreRead(1);
    HexNumberLacks(n, ':' as int);
  }

  /** `vCont;c` and `vCont;c:-1` continue all cores; `vCont;s` and `vCont;s:-1` are refused. */
  lemma AllCoresPackets(d: Bytes, start: nat, end: nat, smp: nat, selected: nat, action: byte)
    requires
      || Holds(d, start, end, VCont() + [';' as int] + [action])
      || Holds(d, start, end, VCont() + [';' as int] + ([action, ':' as int] + ([MINUS] + HexNumber(1))))
    ensures Plans(d, start, end, smp, selected) == if action == 'c' as int then ContinueAll else Refuse
  {
    ThreadNumbers(1);
    if Holds(d, start, end, VCont() + [';' as int] + [action]) {
      BareAction(d, start, end, smp, selected, action);
    } else {
      ThreadAction(d, start, end, smp, selected, action, [MINUS] + HexNumber(1));
    }
  }

  /** `vCont;c:n` continues core n - 1 and `vCont;s:n` steps it; any other action, and any other id, is refused. */
  lemma OneCorePackets(d: Bytes, start: nat, end: nat, smp: nat, selected: nat, action: byte, n: nat)
    requires Holds(d, start, end, VCont() + [';' as int] + ([action, ':' as int] + HexNumber(n)))
    requires 0 < n < LONG_MAX
    ensures Plans(d, start, end, smp, selected) ==
            if n > smp then Refuse
            else if action == 'c' as int then ContinueCore(n - 1)
            else if action == 's' as int then StepCore(n - 1)
            else Refuse
  {
    ThreadNumbers(n);
    ThreadAction(d, start, end, smp, selected, action, HexNumber(n));
  }

  /** `vCont?` asks for the features; a command of another name is not known. */
  lemma OtherVPackets(d: Bytes, start: nat, end: nat, smp: nat, selected: nat, text: Bytes)
    requires Holds(d, start, end, text) && 0 !in text && ';' as int !in text
    ensures Plans(d, start, end, smp, selected) ==
            if text == VCont() + ['?' as int] then AskFeatures
            else if text == VCont() then PlanAt(d[end := 0], end + 1, end, smp, selected)
            else NoCommand
  {
    VContText();
    NoNul(text);
    WholeToken(text, ';' as int);
    assert d[start..end] == text;
  }

  method ExtractLong(data: array<byte>, end: nat, cursor: nat, term: Term) returns (value: Option<int>)
    requires cursor <= end < data.Length
    modifies data
    ensures var s := old(data[..])[cursor..end]; value == NumberLong(s[..TokenLen(s, term)])
  {
    var next := CursorTokenizer(data, end, cursor, term);
    StringAfterCut(old(data[..]), data[..], cursor, next, end);
    var v := Strtol16(data[..][cursor..]);
    value := if v == LONG_MAX || v == LONG_MIN then None else Some(v);
  }

  /** The part of build_v that decides what to do. */
  method DecidePlan(input: array<byte>, start: nat, end: nat, smp: nat, selected: nat) returns (plan: Plan)
    requires start <= end < input.Length
    modifies input
    ensures plan == Plans(old(input[..]), start, end, smp, selected)
  {
    var command, cursor := ExtractStr(input, end, start, Semicolon());
    if command == Ascii("vCont?") { return AskFeatures; }
    if command != Ascii("vCont") { return NoCommand; }
    plan := PlanAction(input, cursor, end, smp, selected);
  }

  method PlanAction(input: array<byte>, at: nat, end: nat, smp: nat, selected: nat) returns (plan: Plan)
    requires at <= end + 1 && end < input.Length
    modifies input
    ensures plan == PlanAt(old(input[..]), at, end, smp, selected)
  {
    if at + 1 >= input.Length { return OverrunPlan; }
    var action := input[at];
    var id := -1;
    if input[at + 1] == ':' as int {
      if at + 2 > end + 1 { return OverrunPlan; }
      if at + 2 == end + 1 { return AbortPlan; }
      var value := ExtractLong(input, end, at + 2, Colon());
      if value.None? { return Refuse; }
      id := value.value;
    }
    var thread := ThreadOf(id, smp, selected);
    if thread.None? { return Refuse; }
    match action as char {
      case 'c' => plan := if thread.value == -1 then ContinueAll else ContinueCore(thread.value);
      case 's' => plan := if thread.value == -1 then Refuse else StepCore(thread.value);
      case _ => plan := Refuse;
    }
  }
}
