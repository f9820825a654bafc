/**
  The destructive tokenizer that cuts a payload into fields, and the numbers extracted from them.
  The scan for the terminator begins at the second character of a field.
*/
module Tokenizer {
  import opened Memory
  import opened Partial
  import opened Strtol

  const UINT32_MAX := 0xFFFF_FFFF

  /** `None` is end-of-buffer: no terminator ends the field early. */
  type Term = Option<byte>

  /** The first index from `i` on that holds the terminator, or the length. */
  function Find(s: Bytes, term: Term, i: nat): (r: nat)
    requires i <= |s|
    ensures i <= r <= |s| && (r < |s| ==> term == Some(s[r]))
    ensures forall k :: i <= k < r ==> term != Some(s[k])
    decreases |s| - i
  {
    if i == |s| || term == Some(s[i]) then i else Find(s, term, i + 1)
  }

  /** The length of the token that the code cuts off: an empty remainder gives an empty token. */
  function TokenLen(s: Bytes, term: Term): (r: nat)
    ensures r <= |s|
  {
    if s == [] then 0 else Find(s, term, 1)
  }

  /** What remains after a token of length `k`; `None` when the cursor is beyond the end. */
  function Beyond(s: Bytes, k: nat): Option<Bytes>
    requires k <= |s|
  {
    if k == |s| then None else Some(s[k + 1..])
  }

  /** What the input holds behind the cursor. */
  function Rest(data: Bytes, cursor: nat, end: nat): Option<Bytes>
    requires cursor <= end + 1 <= |data|
  {
    if cursor == end + 1 then None else Some(data[cursor..end])
  }

  /** What a cut at `next - 1` leaves of the payload from `cursor` on, and behind the cut. */
  lemma CutSlice(was: Bytes, now: Bytes, cursor: nat, next: nat, end: nat)
    requires cursor < next <= end + 1 <= |was| && now == was[next - 1 := 0]
    ensures now[cursor..end] == if next <= end then was[cursor..end][next - 1 - cursor := 0] else was[cursor..end]
    ensures Rest(now, next, end) == Beyond(was[cursor..end], next - 1 - cursor)
  {
    if next <= end { assert now[next..end] == was[cursor..end][next - cursor..]; }
  }

  /**
    sad_cursor_tokenizer. One NUL is written, inside the payload or at its end, and the cursor moves past
    it, at most one beyond the end; the program aborts when called with a cursor that is already there.
  */
  method CursorTokenizer(data: array<byte>, end: nat, cursor: nat, term: Term) returns (next: nat)
    requires cursor <= end < data.Length
    modifies data
    ensures cursor < next <= end + 1
    ensures next == cursor + TokenLen(old(data[..])[cursor..end], term) + 1
    ensures data[..] == old(data[..])[next - 1 := 0]
    ensures Rest(data[..], next, end) == Beyond(old(data[..])[cursor..end], next - 1 - cursor)
  {
    var len := end - cursor;
    var idx := 0;
    ghost var s := data[..][cursor..end];
    while idx != len
      invariant 0 <= idx <= len
      invariant idx == 0 || (Find(s, term, 1) == Find(s, term, idx) && (idx < |s| ==> term != Some(s[idx])))
      decreases len - idx
    {
      ghost var before := idx;
      idx := idx + 1;
      assert before > 0 ==> Find(s, term, before) == Find(s, term, idx);
      if term.Some? && data[cursor + idx] == term.value {
        assert idx < len ==> s[idx] == data[cursor + idx];
        break;
      }
    }
    data[cursor + idx] := 0;
    next := cursor + idx + 1;
    CutSlice(old(data[..]), data[..], cursor, next, end);
  }

  // ----- successive calls

  /** The tokens of successive calls with the given terminators; `None` when a call aborts. */
  function Tokens(rest: Option<Bytes>, terms: seq<Term>): Option<seq<Bytes>>
    decreases |terms|
  {
    if terms == [] then Some([])
    else match rest
      case None => None
      case Some(s) =>
        var k := TokenLen(s, terms[0]);
        match Tokens(Beyond(s, k), terms[1..])
        case None => None
        case Some(more) => Some([s[..k]] + more)
  }

  /** The fields: each ends at the first occurrence of its terminator, or at the end. */
  function Fields(rest: Option<Bytes>, terms: seq<Term>): Option<seq<Bytes>>
    decreases |terms|
  {
    if terms == [] then Some([])
    else match rest
      case None => None
      case Some(s) =>
        var k := Find(s, terms[0], 0);
        match Fields(Beyond(s, k), terms[1..])
        case None => None
        case Some(more) => Some([s[..k]] + more)
  }

  /** No field is empty before its terminator; the last one may be. */
  predicate NoEmptyField(rest: Option<Bytes>, terms: seq<Term>)
    decreases |terms|
  {
    terms == [] || rest.None? ||
    (var s := rest.value;
     && (s == [] || terms[0] != Some(s[0]))
     && NoEmptyField(Beyond(s, Find(s, terms[0], 0)), terms[1..]))
  }

  lemma SameLength(s: Bytes, term: Term)
    ensures TokenLen(s, term) == Find(s, term, 0) <==> (s == [] || term != Some(s[0]))
  {}

  /** Where the payload has all the fields, the calls return them if and only if none is empty too early. */
  lemma {:induction false} TokensAreFields(rest: Option<Bytes>, terms: seq<Term>)
    requires Fields(rest, terms).Some?
    ensures Tokens(rest, terms) == Fields(rest, terms) <==> NoEmptyField(rest, terms)
    decreases |terms|
  {
    if terms != [] {
      var s := rest.value;
      SameLength(s, terms[0]);
      var k := Find(s, terms[0], 0);
      if TokenLen(s, terms[0]) == k {
        var a, b := Tokens(Beyond(s, k), terms[1..]), Fields(Beyond(s, k), terms[1..]);
        TokensAreFields(Beyond(s, k), terms[1..]);
        if a.Some? { HeadsEqual(s[..k], a.value, b.value); }
      } else if Tokens(rest, terms).Some? {
        assert |Tokens(rest, terms).value[0]| != |Fields(rest, terms).value[0]|;
      }
    }
  }

  /** An empty first field: the code takes the terminator for its first character, and the second call aborts. */
  lemma EmptyFieldIsSwallowed()
    ensures
      var s := [',' as int, '4' as int];
      var terms := [Some(',' as int), None];
      && Fields(Some(s), terms) == Some([[], ['4' as int]]) && !NoEmptyField(Some(s), terms)
      && Tokens(Some(s), terms) == None
  {
    var s: Bytes := [',' as int, '4' as int];
    var terms: seq<Term> := [Some(',' as int), None];
    assert Find(s, terms[0], 0) == 0 && TokenLen(s, terms[0]) == 2;
    assert s[1..] == ['4' as int] && terms[1..] == [None] && terms[1..][1..] == [];
    assert Find(s[1..], None, 0) == 1 && s[1..][..1] == ['4' as int];
    assert Fields(Some(s[1..]), terms[1..]) == Some([s[1..][..1]] + []);
    assert s[..0] == [] && [s[..0]] + ([s[1..][..1]] + []) == [[], ['4' as int]];
  }

  lemma HeadsEqual(h: Bytes, a: seq<Bytes>, b: seq<Bytes>)
    ensures [h] + a == [h] + b <==> a == b
  {
    assert ([h] + a)[1..] == a && ([h] + b)[1..] == b;
  }

  /** Fields written one after the other, each with its terminator behind it but the last. */
  function Join(fields: seq<Bytes>, terms: seq<byte>): Bytes
    requires |fields| == |terms| + 1
    decreases |fields|
  {
    if |fields| == 1 then fields[0] else fields[0] + [terms[0]] + Join(fields[1..], terms[1..])
  }

  /** The terminators as the extraction calls name them, the last being end-of-buffer. */
  function Calls(terms: seq<byte>): (r: seq<Term>)
    ensures |r| == |terms| + 1
  {
    if terms == [] then [None] else [Some(terms[0])] + Calls(terms[1..])
  }

  /** Round trip: fields that do not contain their terminator and are not empty come back. */
  lemma {:induction false} JoinedFieldsComeBack(fields: seq<Bytes>, terms: seq<byte>)
    requires |fields| == |terms| + 1
    requires forall i :: 0 <= i < |terms| ==> fields[i] != [] && terms[i] !in fields[i]
    ensures Tokens(Some(Join(fields, terms)), Calls(terms)) == Some(fields)
    decreases |fields|
  {
    if terms == [] {
      LastFieldComesBack(fields[0]);
      assert fields == [fields[0]];
    } else {
      JoinedFieldsComeBack(fields[1..], terms[1..]);
      FirstFieldComesBack(fields, terms[0], Join(fields[1..], terms[1..]), Calls(terms[1..]));
    }
  }

  lemma LastFieldComesBack(s: Bytes)
    ensures Tokens(Some(s), [None]) == Some([s])
  {
    assert Find(s, None, 0) == |s|;
    SameLength(s, None);
    var calls: seq<Term> := [None];
    assert s[..|s|] == s && calls[1..] == [] && TokenLen(s, calls[0]) == |s|;
    assert Tokens(Beyond(s, |s|), calls[1..]) == Some([]);
    assert [s[..|s|]] + [] == [s];
  }

  lemma FirstFieldComesBack(fields: seq<Bytes>, term: byte, more: Bytes, calls: seq<Term>)
    requires |fields| > 1 && fields[0] != [] && term !in fields[0] && Tokens(Some(more), calls) == Some(fields[1..])
    ensures Tokens(Some(fields[0] + [term] + more), [Some(term)] + calls) == Some(fields)
  {
    FirstFieldCut(fields[0], term, more, fields[0] + [term] + more);
    assert ([Some(term)] + calls)[1..] == calls;
    assert [fields[0]] + fields[1..] == fields;
  }

  lemma FirstFieldCut(field: Bytes, term: byte, more: Bytes, s: Bytes)
    requires field != [] && term !in field && s == field + [term] + more
    ensures TokenLen(s, Some(term)) == |field| && s[..|field|] == field && Beyond(s, |field|) == Some(more)
  {
    assert s[..|field|] == field && s[|field| + 1..] == more && s[|field|] == term;
    forall k | 0 <= k < |field|
      ensures s[k] != term
    {
      assert s[k] == field[k];
    }
  }

  // ----- numbers

  /** The number in a token, refused when negative or saturated. */
  function Number64(token: Bytes): (r: Option<nat>)
    ensures r.Some? ==> r.value < LONG_MAX
  {
    var v := Strtol16(token);
    if v == LONG_MAX || v < 0 then None else Some(v)
  }

  function Number32(token: Bytes): (r: Option<nat>)
    ensures r.Some? ==> r.value <= UINT32_MAX
  {
    var v := Strtol16(token);
    if v > UINT32_MAX || v < 0 then None else Some(v)
  }

  /** Exactly the numbers that fit are taken, and no negative one but zero. */
  lemma NumbersExactly(n: nat)
    ensures Number64(HexNumber(n)) == if n < LONG_MAX then Some(n) else None
    ensures Number32(HexNumber(n)) == if n <= UINT32_MAX then Some(n) else None
    ensures Number64([MINUS] + HexNumber(n)) == if n == 0 then Some(0) else None
    ensures Number32([MINUS] + HexNumber(n)) == if n == 0 then Some(0) else None
  {
    NumbersAreReadBack(n);
    SignsAreRead(n);
  }

  /** strtol reads up to the NUL that the tokenizer wrote. */
  lemma {:induction false} NulEndsTheToken(token: Bytes, more: Bytes)
    ensures CString(token + [0] + more) == CString(token)
    decreases |token|
  {
    var s := token + [0] + more;
    if token != [] && token[0] != 0 {
      assert s[1..] == token[1..] + [0] + more;
      NulEndsTheToken(token[1..], more);
    }
  }

  /** The C string at the cursor after the cut is the token. */
  lemma StringAfterCut(was: Bytes, now: Bytes, cursor: nat, next: nat, end: nat)
    requires cursor < next <= end + 1 <= |was| && now == was[next - 1 := 0]
    ensures CString(now[cursor..]) == CString(was[cursor..end][..next - 1 - cursor])
  {
    var token := was[cursor..end][..next - 1 - cursor];
    assert now[cursor..] == token + [0] + now[next..];
    NulEndsTheToken(token, now[next..]);
  }

  method ExtractUint64(data: array<byte>, end: nat, cursor: nat, term: Term) returns (value: Option<nat>, next: nat)
    requires cursor <= end < data.Length
    modifies data
    ensures next == cursor + TokenLen(old(data[..])[cursor..end], term) + 1 && next <= end + 1
    ensures data[..] == old(data[..])[next - 1 := 0]
    ensures Rest(data[..], next, end) == Beyond(old(data[..])[cursor..end], next - 1 - cursor)
    ensures value == Number64(old(data[..])[cursor..end][..next - 1 - cursor])
  {
    next := CursorTokenizer(data, end, cursor, term);
    var v := Strtol16(data[..][cursor..]);
    StringAfterCut(old(data[..]), data[..], cursor, next, end);
    value := if v == LONG_MAX || v < 0 then None else Some(v);
  }

  method ExtractUint32(data: array<byte>, end: nat, cursor: nat, term: Term) returns (value: Option<nat>, next: nat)
    requires cursor <= end < data.Length
    modifies data
    ensures next == cursor + TokenLen(old(data[..])[cursor..end], term) + 1 && next <= end + 1
    ensures data[..] == old(data[..])[next - 1 := 0]
    ensures Rest(data[..], next, end) == Beyond(old(data[..])[cursor..end], next - 1 - cursor)
    ensures value == Number32(old(data[..])[cursor..end][..next - 1 - cursor])
  {
    next := CursorTokenizer(data, end, cursor, term);
    var v := Strtol16(data[..][cursor..]);
    StringAfterCut(old(data[..]), data[..], cursor, next, end);
    value := if v > UINT32_MAX || v < 0 then None else Some(v);
  }

  /** sad_extract_str: the token as a C string. */
  method ExtractStr(data: array<byte>, end: nat, cursor: nat, term: Term) returns (str: Bytes, next: nat)
    requires cursor <= end < data.Length
    modifies data
    ensures next == cursor + TokenLen(old(data[..])[cursor..end], term) + 1 && next <= end + 1
    ensures data[..] == old(data[..])[next - 1 := 0]
    ensures Rest(data[..], next, end) == Beyond(old(data[..])[cursor..end], next - 1 - cursor)
    ensures str == CString(old(data[..])[cursor..end][..next - 1 - cursor])
  {
    next := CursorTokenizer(data, end, cursor, term);
    str := CString(data[..][cursor..]);
    StringAfterCut(old(data[..]), data[..], cursor, next, end);
  }

  lemma {:induction false} WholeCString(s: Bytes)
    ensures CString(CString(s)) == CString(s)
    decreases |s|
  {
    if s != [] && s[0] != 0 { WholeCString(s[1..]); }
  }

  /** The token up to the end of the payload. */
  method ExtractRest(data: array<byte>, end: nat, cursor: nat) returns (str: Bytes)
    requires cursor <= end < data.Length
    modifies data
    ensures data[..] == old(data[..])[end := 0]
    ensures str == CString(old(data[..])[cursor..end]) && CString(str) == str
  {
    ghost var s := data[..][cursor..end];
    var next;
    str, next := ExtractStr(data, end, cursor, None);
    assert TokenLen(s, None) == |s| && s[..|s|] == s;
    WholeCString(s);
  }
}
