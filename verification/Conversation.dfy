/** The stub's main loop: read, parse, and on a verdict reply and start afresh. */
module Conversation {
  import opened Memory
  import opened Strtol
  import opened Parser
  import opened Frame

  /** What the stub does on a verdict. */
  datatype Response = Dispatch(payload: Bytes) | Refuse | Resend

  predicate Decided(p: Progress) { p.phase in {Finished, Error, Nack} }

  function Respond(p: Progress, data: Bytes): Response
    requires Decided(p)
  {
    if p.phase == Error then Refuse
    else if p.phase == Nack then Resend
    else if p.start <= p.end <= |data| then Dispatch(data[p.start..p.end])
    else Dispatch([])
  }

  /** How dispatching a payload changes the mode of acknowledgements. */
  type ModeRule = (Bytes, bool) -> bool

  /** Acknowledgements are never turned on again. */
  ghost predicate NeverOn(next: ModeRule) { forall payload :: !next(payload, false) }

  function ModeAfter(r: Response, ack: bool, next: ModeRule): bool {
    if r.Dispatch? then next(r.payload, ack) else ack
  }

  /** The responses to a series of non-empty reads. */
  function Serve(p: Progress, data: Bytes, chunks: seq<Bytes>, ack: bool, next: ModeRule): seq<Response>
    requires Valid(p, data)
    decreases |chunks|
  {
    if chunks == [] then []
    else
      var more := data + chunks[0];
      var q := Parse(p, more, ack);
      if Decided(q) then
        var r := Respond(q, more);
        [r] + Serve(Fresh(q.first), [], chunks[1..], ModeAfter(r, ack, next), next)
      else Serve(q, more, chunks[1..], ack, next)
  }

  predicate NoneEmpty(chunks: seq<Bytes>) { forall i :: 0 <= i < |chunks| ==> chunks[i] != [] }

  /** A read that begins with a negative acknowledgement makes the stub send its last reply again, and nothing else. */
  lemma NackIsAnswered(junk: Bytes, chunks: seq<Bytes>, first: byte, next: ModeRule)
    ensures Serve(Fresh(first), [], [[MINUS] + junk] + chunks, true, next) ==
            [Resend] + Serve(Fresh(first), [], chunks, true, next)
  {
    var read := [MINUS] + junk;
    ParserRecognises(read, true, first);
    assert First(read, 0, PLUS, MINUS) == 0;
    assert [] + read == read;
    assert ([read] + chunks)[1..] == chunks;
  }

  // ----- parts of a frame

  /** With acknowledgements on nothing short of the whole frame is decided; with them off the `#` decides. */
  lemma PartOfAFrame(payload: Bytes, ack: bool, first: byte, n: nat)
    requires HASH !in payload && n <= |Framed(payload, ack)|
    ensures
      var f := Framed(payload, ack);
      var p := Parse(Fresh(first), f[..n], ack);
      && (Decided(p) <==> n >= if ack then |f| else |f| - 2)
      && (Decided(p) ==> Respond(p, f[..n]) == Dispatch(payload))
  {
    var s := if ack then 2 else 1;
    FrameLayout(payload, ack, Framed(payload, ack), s, s + |payload|);
    PartOfALayout(Framed(payload, ack), payload, ack, first, s, n);
  }

  /** The same for any bytes laid out like a frame. */
  lemma PartOfALayout(f: Bytes, payload: Bytes, ack: bool, first: byte, s: nat, n: nat)
    requires HASH !in payload && n <= |f| == s + |payload| + 3 && s == (if ack then 2 else 1)
    requires f[s - 1] == DOLLAR && (ack ==> f[0] == PLUS) && f[s..s + |payload|] == payload && f[s + |payload|] == HASH
    requires var e := s + |payload|; [f[e + 1], f[e + 2]] == TwoDigits(Checksum(payload))
    ensures
      var p := Parse(Fresh(first), f[..n], ack);
      && (Decided(p) <==> n >= if ack then |f| else |f| - 2)
      && (Decided(p) ==> Respond(p, f[..n]) == Dispatch(payload))
  {
    var e, d := s + |payload|, f[..n];
    ParserRecognises(d, ack, first);
    if n < s {
      BeforeThePayload(d, ack, first);
    } else {
      RecogniseFrame(d, ack, first, s);
      FirstHash(f, s, e, n);
      if n > e { assert d[s..e] == f[s..e] == payload; }
      if n == e + 3 { assert d[e + 1] == f[e + 1] && d[e + 2] == f[e + 2]; }
      FromThePayload(payload, d, s, ack, first);
    }
  }

  lemma BeforeThePayload(d: Bytes, ack: bool, first: byte)
    requires d == [] || (ack && d == [PLUS])
    ensures !Decided(Recognise(d, ack, first))
  {
    if ack && d != [] { assert First(d, 0, PLUS, MINUS) == 0; }
  }

  lemma FromThePayload(payload: Bytes, d: Bytes, s: nat, ack: bool, first: byte)
    requires s <= |d| <= s + |payload| + 3
    requires
      var e := s + |payload|;
      && First(d, s, HASH, HASH) == (if |d| > e then e else |d|)
      && (|d| > e ==> d[s..e] == payload)
      && (|d| == e + 3 ==> [d[e + 1], d[e + 2]] == TwoDigits(Checksum(payload)))
    ensures
      var p := FromPayload(d, s, ack, first);
      && (Decided(p) <==> |d| >= s + |payload| + if ack then 3 else 1)
      && (Decided(p) ==> Respond(p, d) == Dispatch(payload))
  {
    ChecksumReadsBack(Checksum(payload));
  }

  lemma FirstHash(f: Bytes, s: nat, e: nat, n: nat)
    requires s <= n <= |f| && s <= e < |f| && HASH !in f[s..e] && f[e] == HASH
    ensures First(f[..n], s, HASH, HASH) == if n > e then e else n
  {
    forall k | s <= k < e
      ensures f[k] != HASH
    {
      assert f[s..e][k - s] == f[k];
    }
  }

  // ----- a packet cut into reads

  /** Acknowledgements on, or the last read has the whole tail `#` and two digits. */
  predicate WellCut(chunks: seq<Bytes>, ack: bool) { chunks != [] && (ack || |chunks[|chunks| - 1]| >= 3) }

  /** How many bytes of a frame decide it. */
  function Enough(f: Bytes, ack: bool): int { if ack then |f| else |f| - 2 }

  /** The first `k` reads decide, and fewer do not. */
  predicate DecidesAt(first: byte, data: Bytes, chunks: seq<Bytes>, ack: bool, k: nat) {
    && 0 < k <= |chunks|
    && Decided(Parse(Fresh(first), data + Concat(chunks[..k]), ack))
    && !Decided(Parse(Fresh(first), data + Concat(chunks[..k - 1]), ack))
  }

  /** The verdict of the first `k` reads, and what is served from there on. */
  ghost predicate ServesFrom(
    served: seq<Response>, first: byte, data: Bytes, chunks: seq<Bytes>, ack: bool, next: ModeRule, k: nat)
    requires k <= |chunks|
  {
    var more := data + Concat(chunks[..k]);
    var q := Parse(Fresh(first), more, ack);
    && Decided(q)
    && var r := Respond(q, more);
       served == [r] + Serve(Fresh(q.first), [], chunks[k..], ModeAfter(r, ack, next), next)
  }

  lemma ConcatFirst(data: Bytes, chunks: seq<Bytes>, k: nat)
    requires 0 < k <= |chunks|
    ensures data + chunks[0] + Concat(chunks[1..][..k - 1]) == data + Concat(chunks[..k])
  {
    assert chunks[..k][1..] == chunks[1..][..k - 1];
  }

  /** The stub goes on reading until the reads together decide. */
  lemma {:induction false} ServeDecides(
    first: byte, data: Bytes, chunks: seq<Bytes>, ack: bool, next: ModeRule, p: Progress)
    requires p == Parse(Fresh(first), data, ack) && !Decided(p)
    ensures
      var served := Serve(p, data, chunks, ack, next);
      if served == [] then
        forall k :: 0 <= k <= |chunks| ==> !Decided(Parse(Fresh(first), data + Concat(chunks[..k]), ack))
      else exists k :: DecidesAt(first, data, chunks, ack, k) && ServesFrom(served, first, data, chunks, ack, next, k)
    decreases |chunks|
  {
    assert data + Concat(chunks[..0]) == data;
    if chunks != [] {
      var more := data + chunks[0];
      ConcatFirst(data, chunks, 1);
      assert Concat(chunks[1..][..0]) == [];
      assert more + [] == more;
      ParseResumes(Fresh(first), data, chunks[0], ack);
      var q := Parse(p, more, ack);
      if Decided(q) {
        assert ServesFrom(Serve(p, data, chunks, ack, next), first, data, chunks, ack, next, 1);
        assert DecidesAt(first, data, chunks, ack, 1);
      } else {
        ServeDecides(first, more, chunks[1..], ack, next, q);
        ServeGoesOn(first, data, chunks, ack, next);
      }
    }
  }

  /** What was found from the second read on, seen from the first. */
  lemma ServeGoesOn(first: byte, data: Bytes, chunks: seq<Bytes>, ack: bool, next: ModeRule)
    requires chunks != []
    ensures
      var more := data + chunks[0];
      && (forall k :: 0 < k <= |chunks| ==> data + Concat(chunks[..k]) == more + Concat(chunks[1..][..k - 1]))
      && (forall k :: 0 < k < |chunks| && DecidesAt(first, more, chunks[1..], ack, k) ==>
            DecidesAt(first, data, chunks, ack, k + 1))
      && (forall k, served :: 0 < k < |chunks| && ServesFrom(served, first, more, chunks[1..], ack, next, k) ==>
            ServesFrom(served, first, data, chunks, ack, next, k + 1))
  {
    var more := data + chunks[0];
    forall k | 0 < k <= |chunks|
      ensures data + Concat(chunks[..k]) == more + Concat(chunks[1..][..k - 1])
    {
      ConcatFirst(data, chunks, k);
    }
    forall k | 0 < k < |chunks|
      ensures chunks[1..][k..] == chunks[k + 1..]
    {}
  }

  lemma {:induction false} ConcatSplit(a: seq<Bytes>, b: seq<Bytes>)
    ensures Concat(a + b) == Concat(a) + Concat(b)
    decreases |a|
  {
    if a == [] {
      assert a + b == b;
    } else {
      assert (a + b)[1..] == a[1..] + b;
      ConcatSplit(a[1..], b);
    }
  }

  lemma ConcatUpTo(chunks: seq<Bytes>, k: nat, j: nat)
    requires k <= j <= |chunks|
    ensures Concat(chunks[..j]) == Concat(chunks[..k]) + Concat(chunks[k..j])
  {
    assert chunks[..j] == chunks[..k] + chunks[k..j];
    ConcatSplit(chunks[..k], chunks[k..j]);
  }

  lemma ConcatLast(chunks: seq<Bytes>, k: nat)
    requires 0 < k <= |chunks|
    ensures Concat(chunks[..k]) == Concat(chunks[..k - 1]) + chunks[k - 1]
  {
    ConcatUpTo(chunks, k - 1, k);
    assert chunks[k - 1..k] == [chunks[k - 1]];
  }

  /** A verdict stays, with the same response, whatever comes behind it. */
  lemma VerdictStays(first: byte, data: Bytes, more: Bytes, ack: bool)
    requires Decided(Parse(Fresh(first), data, ack))
    ensures
      var p, q := Parse(Fresh(first), data, ack), Parse(Fresh(first), data + more, ack);
      Decided(q) && Respond(q, data + more) == Respond(p, data)
  {
    var p := Parse(Fresh(first), data, ack);
    ParseResumes(Fresh(first), data, more, ack);
    Final(p, data + more, ack);
    if p.start <= p.end { assert (data + more)[p.start..p.end] == data[p.start..p.end]; }
  }

  // ----- one packet at the head of a stream

  /** The packet is exactly the first `k` reads, well cut. */
  predicate EndsAt(payload: Bytes, chunks: seq<Bytes>, ack: bool, k: nat) {
    0 < k <= |chunks| && Concat(chunks[..k]) == Framed(payload, ack) && WellCut(chunks[..k], ack)
  }

  /** The first `k` reads, when a packet is at the head of what they bring. */
  lemma HeadOfStream(payload: Bytes, rest: Bytes, chunks: seq<Bytes>, ack: bool, first: byte, k: nat)
    requires HASH !in payload && k <= |chunks| && Concat(chunks) == Framed(payload, ack) + rest
    ensures
      var f, more := Framed(payload, ack), Concat(chunks[..k]);
      var p := Parse(Fresh(first), more, ack);
      && |more| <= |f + rest| && more == (f + rest)[..|more|]
      && (Decided(p) <==> |more| >= Enough(f, ack))
      && (Decided(p) ==> Respond(p, more) == Dispatch(payload))
  {
    var f, more := Framed(payload, ack), Concat(chunks[..k]);
    ConcatUpTo(chunks, k, |chunks|);
    assert chunks[..|chunks|] == chunks;
    assert more == (f + rest)[..|more|];
    if |more| <= |f| {
      assert more == f[..|more|];
      PartOfAFrame(payload, ack, first, |more|);
    } else {
      PartOfAFrame(payload, ack, first, |f|);
      assert f[..|f|] == f && more == f + more[|f|..];
      VerdictStays(first, f, more[|f|..], ack);
    }
  }

  /** The packet is dispatched by the first reads that together bring enough of it. */
  lemma HeadIsDispatched(
    payload: Bytes, rest: Bytes, chunks: seq<Bytes>, ack: bool, first: byte, next: ModeRule) returns (k: nat, c: byte)
    requires HASH !in payload && Concat(chunks) == Framed(payload, ack) + rest
    ensures 0 < k <= |chunks|
    ensures |Concat(chunks[..k])| >= Enough(Framed(payload, ack), ack) > |Concat(chunks[..k - 1])|
    ensures Serve(Fresh(first), [], chunks, ack, next) ==
            [Dispatch(payload)] + Serve(Fresh(c), [], chunks[k..], next(payload, ack), next)
  {
    HeadOfStream(payload, rest, chunks, ack, first, |chunks|);
    assert chunks[..|chunks|] == chunks;
    k, c := Served(first, chunks, ack, next);
    HeadOfStream(payload, rest, chunks, ack, first, k);
    HeadOfStream(payload, rest, chunks, ack, first, k - 1);
  }

  /** The first reads that decide, and what is served from there on. */
  lemma Served(first: byte, chunks: seq<Bytes>, ack: bool, next: ModeRule) returns (k: nat, c: byte)
    requires Serve(Fresh(first), [], chunks, ack, next) != [] || Decided(Parse(Fresh(first), Concat(chunks), ack))
    ensures 0 < k <= |chunks|
    ensures !Decided(Parse(Fresh(first), Concat(chunks[..k - 1]), ack))
    ensures Decided(Parse(Fresh(first), Concat(chunks[..k]), ack))
    ensures
      var r := Respond(Parse(Fresh(first), Concat(chunks[..k]), ack), Concat(chunks[..k]));
      Serve(Fresh(first), [], chunks, ack, next) ==
      [r] + Serve(Fresh(c), [], chunks[k..], ModeAfter(r, ack, next), next)
  {
    ServeDecides(first, [], chunks, ack, next, Fresh(first));
    var served := Serve(Fresh(first), [], chunks, ack, next);
    assert chunks[..|chunks|] == chunks && [] + Concat(chunks) == Concat(chunks);
    k :| DecidesAt(first, [], chunks, ack, k) && ServesFrom(served, first, [], chunks, ack, next, k);
    assert [] + Concat(chunks[..k]) == Concat(chunks[..k]) && [] + Concat(chunks[..k - 1]) == Concat(chunks[..k - 1]);
    c := Parse(Fresh(first), Concat(chunks[..k]), ack).first;
  }

  // ----- reads that spoil the rest

  function Header(ack: bool): nat { if ack then 2 else 1 }

  /** How many packets can end in these bytes. */
  function Hashes(s: Bytes): nat { multiset(s)[HASH] }

  lemma HashesAdd(a: Bytes, b: Bytes)
    ensures Hashes(a + b) == Hashes(a) + Hashes(b)
  {}

  lemma TwoHashes(s: Bytes, i: nat, j: nat)
    requires i < j < |s| && s[i] == s[j] == HASH
    ensures Hashes(s) >= 2
  {
    assert s == s[..j] + s[j..];
    HashesAdd(s[..j], s[j..]);
    assert s[..j][i] == HASH && s[j..][0] == HASH;
  }

  lemma NoHashBefore(s: Bytes, n: nat, at: nat)
    requires n <= |s| && Hashes(s[..n]) == 0 && at < |s| && s[at] == HASH
    ensures at >= n
  {
    assert HASH !in s[..n];
    forall i | 0 <= i < n
      ensures s[i] != HASH
    {
      assert s[..n][i] == s[i];
    }
  }

  /** A dispatched payload lies behind a header and before a `#`. */
  lemma DispatchedPart(first: byte, more: Bytes, ack: bool, payload: Bytes)
    requires Decided(Parse(Fresh(first), more, ack))
    requires Respond(Parse(Fresh(first), more, ack), more) == Dispatch(payload)
    ensures
      var p := Parse(Fresh(first), more, ack);
      Header(ack) <= p.start <= p.end < |more| && more[p.end] == HASH && more[p.start..p.end] == payload
  {
    ParserRecognises(more, ack, first);
  }

  /** What is dispatched first, and what is left for the others. */
  lemma FirstDispatch(first: byte, chunks: seq<Bytes>, ack: bool, next: ModeRule, payloads: seq<Bytes>)
    returns (k: nat, c: byte, end: nat)
    requires payloads != [] && Serve(Fresh(first), [], chunks, ack, next) == Dispatches(payloads)
    ensures 0 < k <= |chunks| && Concat(chunks) == Concat(chunks[..k]) + Concat(chunks[k..])
    ensures Serve(Fresh(c), [], chunks[k..], next(payloads[0], ack), next) == Dispatches(payloads[1..])
    ensures Header(ack) + |payloads[0]| <= end < |Concat(chunks[..k])| && Concat(chunks[..k])[end] == HASH
  {
    k, c := Served(first, chunks, ack, next);
    var more := Concat(chunks[..k]);
    var q := Parse(Fresh(first), more, ack);
    SplitServed(Serve(Fresh(first), [], chunks, ack, next), Respond(q, more),
                Serve(Fresh(c), [], chunks[k..], ModeAfter(Respond(q, more), ack, next), next), payloads);
    DispatchedPart(first, more, ack, payloads[0]);
    end := q.end;
    ConcatUpTo(chunks, k, |chunks|);
    assert chunks[..|chunks|] == chunks;
  }

  lemma SplitServed(served: seq<Response>, r: Response, others: seq<Response>, payloads: seq<Bytes>)
    requires payloads != [] && served == [r] + others == Dispatches(payloads)
    ensures r == Dispatch(payloads[0]) && others == Dispatches(payloads[1..])
  {
    assert served[0] == r && served[1..] == others;
  }

  /** Every dispatched packet takes a `#`. */
  lemma {:induction false} DispatchesTakeHashes(
    first: byte, chunks: seq<Bytes>, ack: bool, next: ModeRule, payloads: seq<Bytes>)
    requires Serve(Fresh(first), [], chunks, ack, next) == Dispatches(payloads)
    ensures |payloads| <= Hashes(Concat(chunks))
    decreases |payloads|
  {
    if payloads != [] {
      var k, c, end := FirstDispatch(first, chunks, ack, next, payloads);
      DispatchesTakeHashes(c, chunks[k..], next(payloads[0], ack), next, payloads[1..]);
      HashesAdd(Concat(chunks[..k]), Concat(chunks[k..]));
      assert Concat(chunks[..k])[end] == HASH;
    }
  }

  // ----- whole conversations

  function Dispatches(payloads: seq<Bytes>): (r: seq<Response>)
    ensures |r| == |payloads| && forall i :: 0 <= i < |r| ==> r[i] == Dispatch(payloads[i])
  {
    if payloads == [] then [] else [Dispatch(payloads[0])] + Dispatches(payloads[1..])
  }

  /** What the peer sends: the frame of every payload in the mode it comes in. */
  function Stream(payloads: seq<Bytes>, ack: bool, next: ModeRule): Bytes
    decreases |payloads|
  {
    if payloads == [] then [] else Framed(payloads[0], ack) + Stream(payloads[1..], next(payloads[0], ack), next)
  }

  predicate AllClean(payloads: seq<Bytes>) { forall i :: 0 <= i < |payloads| ==> HASH !in payloads[i] }

  lemma FrameHasOneHash(payload: Bytes, ack: bool)
    requires HASH !in payload
    ensures Hashes(Framed(payload, ack)) == 1
  {
    var head := if ack then [PLUS, DOLLAR] else [DOLLAR];
    var digits := TwoDigits(Checksum(payload));
    assert Hashes(digits) == 0;
    assert Hashes(head) == 0;
    assert Framed(payload, ack) == head + payload + [HASH] + digits;
  }

  lemma {:induction false} StreamHashes(payloads: seq<Bytes>, ack: bool, next: ModeRule)
    requires AllClean(payloads)
    ensures Hashes(Stream(payloads, ack, next)) == |payloads|
    decreases |payloads|
  {
    if payloads != [] {
      FrameHasOneHash(payloads[0], ack);
      StreamHashes(payloads[1..], next(payloads[0], ack), next);
      HashesAdd(Framed(payloads[0], ack), Stream(payloads[1..], next(payloads[0], ack), next));
    }
  }

  /** Once the head of a packet is lost, the payloads are not all dispatched any more. */
  lemma LostHead(payloads: seq<Bytes>, ack: bool, next: ModeRule, lost: nat, chunks: seq<Bytes>, first: byte)
    requires payloads != [] && AllClean(payloads) && 0 < lost <= |Stream(payloads, ack, next)|
    requires Concat(chunks) == Stream(payloads, ack, next)[lost..]
    ensures Serve(Fresh(first), [], chunks, ack, next) != Dispatches(payloads)
  {
    if Serve(Fresh(first), [], chunks, ack, next) == Dispatches(payloads) {
      StreamHashes(payloads, ack, next);
      DispatchesTakeHashes(first, chunks, ack, next, payloads);
      var k, c, end := FirstDispatch(first, chunks, ack, next, payloads);
      DispatchesTakeHashes(c, chunks[k..], next(payloads[0], ack), next, payloads[1..]);
      HashArithmetic(Stream(payloads, ack, next), lost, Concat(chunks[..k]), Concat(chunks[k..]), |payloads|);
      LostHeadHashes(payloads, ack, next, lost, Concat(chunks[..k]), Concat(chunks[k..]), end);
      assert false;
    }
  }

  lemma HashArithmetic(s: Bytes, lost: nat, a: Bytes, b: Bytes, n: nat)
    requires lost <= |s| && s[lost..] == a + b && Hashes(s) == n <= Hashes(s[lost..]) && n - 1 <= Hashes(b)
    ensures Hashes(s[..lost]) == 0 && Hashes(a) <= 1
  {
    assert s == s[..lost] + s[lost..];
    HashesAdd(s[..lost], s[lost..]);
    HashesAdd(a, b);
  }

  /** The first packet's `#` comes too early for its whole payload to be in front of it. */
  lemma LostHeadHashes(
    payloads: seq<Bytes>, ack: bool, next: ModeRule, lost: nat, more: Bytes, others: Bytes, end: nat)
    requires payloads != [] && 0 < lost <= |Stream(payloads, ack, next)|
    requires more + others == Stream(payloads, ack, next)[lost..] && Hashes(Stream(payloads, ack, next)[..lost]) == 0
    requires Header(ack) + |payloads[0]| <= end < |more| && more[end] == HASH
    ensures Hashes(more) >= 2
  {
    var s, f, at := Stream(payloads, ack, next), Framed(payloads[0], ack), Header(ack) + |payloads[0]|;
    FrameLayout(payloads[0], ack, f, Header(ack), at);
    assert s[at] == f[at] == HASH;
    NoHashBefore(s, lost, at);
    assert (more + others)[at - lost] == s[at];
    TwoHashes(more, at - lost, end);
  }

  /** A digit of a checksum is not the beginning of a packet. */
  lemma StrayDigit(first: byte, chunks: seq<Bytes>, next: ModeRule)
    requires chunks != [] && chunks[0] != [] && chunks[0][0] != PLUS && chunks[0][0] != DOLLAR
    ensures var r := Serve(Fresh(first), [], chunks, false, next); |r| > 0 && r[0] == Refuse
  {
    assert [] + chunks[0] == chunks[0];
    ParserRecognises(chunks[0], false, first);
  }

  /** What remains of a frame behind its `#` begins with a digit. */
  lemma DigitsRemain(payload: Bytes, rest: Bytes, more: Bytes, chunks: seq<Bytes>)
    requires NoneEmpty(chunks) && more + Concat(chunks) == Framed(payload, false) + rest
    requires Enough(Framed(payload, false), false) <= |more| < |Framed(payload, false)|
    ensures chunks != [] && chunks[0] != [] && chunks[0][0] != PLUS && chunks[0][0] != DOLLAR
  {
    var f := Framed(payload, false);
    FrameLayout(payload, false, f, 1, 1 + |payload|);
    var digits := TwoDigits(Checksum(payload));
    var k := |more| - (|f| - 2);
    assert |more + Concat(chunks)| == |f + rest|;
    assert (more + Concat(chunks))[|more|] == (f + rest)[|more|] == f[|more|];
    assert f[|more|] == f[|f| - 2..][k] == digits[k];
    assert Concat(chunks)[0] == chunks[0][0];
  }

  /** Cut between `#` and the end with acknowledgements off, a packet is dispatched and then refused. */
  lemma BadlyCutIsRefused(payload: Bytes, rest: Bytes, chunks: seq<Bytes>, first: byte, next: ModeRule, k: nat)
    requires HASH !in payload && NoneEmpty(chunks) && Concat(chunks) == Framed(payload, false) + rest && NeverOn(next)
    requires k <= |chunks| && Enough(Framed(payload, false), false) <= |Concat(chunks[..k])| < |Framed(payload, false)|
    ensures
      var r := Serve(Fresh(first), [], chunks, false, next);
      |r| >= 2 && r[0] == Dispatch(payload) && r[1] == Refuse
  {
    var j, c := HeadIsDispatched(payload, rest, chunks, false, first, next);
    if k < j { ConcatUpTo(chunks, k, j - 1); } else { ConcatUpTo(chunks, j, k); }
    ConcatUpTo(chunks, j, |chunks|);
    assert chunks[..|chunks|] == chunks;
    DigitsRemain(payload, rest, Concat(chunks[..j]), chunks[j..]);
    StrayDigit(c, chunks[j..], next);
  }

  /** A packet that ends with a read, and is well cut, is dispatched once and leaves nothing behind. */
  lemma WellCutIsServed(
    payload: Bytes, rest: Bytes, chunks: seq<Bytes>, ack: bool, first: byte, next: ModeRule, k: nat) returns (c: byte)
    requires HASH !in payload && NoneEmpty(chunks) && Concat(chunks) == Framed(payload, ack) + rest
    requires EndsAt(payload, chunks, ack, k)
    ensures Concat(chunks[k..]) == rest
    ensures Serve(Fresh(first), [], chunks, ack, next) ==
            [Dispatch(payload)] + Serve(Fresh(c), [], chunks[k..], next(payload, ack), next)
  {
    var j;
    j, c := HeadIsDispatched(payload, rest, chunks, ack, first, next);
    ConcatLast(chunks, k);
    assert chunks[..k][|chunks[..k]| - 1] == chunks[k - 1] != [];
    if j < k { ConcatUpTo(chunks, j, k - 1); } else if k < j { ConcatUpTo(chunks, k, j - 1); }
    SameEnd(chunks, Framed(payload, ack), rest, k);
  }

  lemma SameEnd(chunks: seq<Bytes>, f: Bytes, rest: Bytes, k: nat)
    requires k <= |chunks| && Concat(chunks) == f + rest && Concat(chunks[..k]) == f
    ensures Concat(chunks[k..]) == rest
  {
    ConcatUpTo(chunks, k, |chunks|);
    assert chunks[..|chunks|] == chunks;
    assert (f + rest)[|f|..] == rest && (f + Concat(chunks[k..]))[|f|..] == Concat(chunks[k..]);
  }

  /** Every packet ends with a read, and is well cut in the mode it comes in. */
  ghost predicate ReadsFit(payloads: seq<Bytes>, chunks: seq<Bytes>, ack: bool, next: ModeRule)
    decreases |payloads|
  {
    if payloads == [] then chunks == []
    else exists k :: 0 <= k <= |chunks| && EndsAt(payloads[0], chunks, ack, k)
                     && ReadsFit(payloads[1..], chunks[k..], next(payloads[0], ack), next)
  }

  /** The first packet of a conversation that is served ends with a read. */
  lemma ServedEndsAt(payloads: seq<Bytes>, chunks: seq<Bytes>, ack: bool, first: byte, next: ModeRule) returns (k: nat)
    requires payloads != [] && AllClean(payloads) && NoneEmpty(chunks) && NeverOn(next)
    requires Concat(chunks) == Stream(payloads, ack, next)
    requires Serve(Fresh(first), [], chunks, ack, next) == Dispatches(payloads)
    ensures EndsAt(payloads[0], chunks, ack, k)
  {
    var f, mode := Framed(payloads[0], ack), next(payloads[0], ack);
    var rest := Stream(payloads[1..], mode, next);
    var c;
    k, c := HeadIsDispatched(payloads[0], rest, chunks, ack, first, next);
    var more, left := Concat(chunks[..k]), Concat(chunks[k..]);
    ConcatUpTo(chunks, k, |chunks|);
    assert chunks[..|chunks|] == chunks;
    ConcatLast(chunks, k);
    var served := Serve(Fresh(c), [], chunks[k..], mode, next);
    assert served == Serve(Fresh(first), [], chunks, ack, next)[1..];
    assert served == Dispatches(payloads)[1..] == Dispatches(payloads[1..]);
    if |more| < |f| {
      DigitsRemain(payloads[0], rest, more, chunks[k..]);
      StrayDigit(c, chunks[k..], next);
      assert false;
    } else if |more| > |f| {
      HeadIsLost(payloads[1..], mode, next, f, more, chunks[k..], c);
      assert false;
    }
    assert more == (more + left)[..|more|] == (f + rest)[..|f|] == f;
  }

  /** The first reads brought more than the first packet, and the rest of it is lost. */
  lemma HeadIsLost(
    payloads: seq<Bytes>, ack: bool, next: ModeRule, f: Bytes, more: Bytes, chunks: seq<Bytes>, first: byte)
    requires AllClean(payloads) && |more| > |f| && more + Concat(chunks) == f + Stream(payloads, ack, next)
    ensures Serve(Fresh(first), [], chunks, ack, next) != Dispatches(payloads)
  {
    var rest, lost := Stream(payloads, ack, next), |more| - |f|;
    assert |more + Concat(chunks)| == |f + rest|;
    assert Concat(chunks) == (more + Concat(chunks))[|more|..] == (f + rest)[|more|..] == rest[lost..];
    LostHead(payloads, ack, next, lost, chunks, first);
  }

  lemma NothingRead(chunks: seq<Bytes>)
    requires NoneEmpty(chunks) && Concat(chunks) == []
    ensures chunks == []
  {}

  /**
    However the bytes of a conversation are cut into reads: every payload is dispatched, in order and
    nothing else happens, if and only if every packet ends with a read and, with acknowledgements off,
    that read has the whole tail of the packet.
  */
  lemma {:induction false} ConversationIsServed(
    payloads: seq<Bytes>, chunks: seq<Bytes>, ack: bool, first: byte, next: ModeRule)
    requires AllClean(payloads) && NoneEmpty(chunks) && NeverOn(next) && Concat(chunks) == Stream(payloads, ack, next)
    ensures Serve(Fresh(first), [], chunks, ack, next) == Dispatches(payloads)
            <==> ReadsFit(payloads, chunks, ack, next)
    decreases |payloads|
  {
    if payloads == [] {
      NothingRead(chunks);
    } else {
      var mode := next(payloads[0], ack);
      var rest := Stream(payloads[1..], mode, next);
      if Serve(Fresh(first), [], chunks, ack, next) == Dispatches(payloads) {
        var k := ServedEndsAt(payloads, chunks, ack, first, next);
        var c := WellCutIsServed(payloads[0], rest, chunks, ack, first, next, k);
        ConversationIsServed(payloads[1..], chunks[k..], mode, c, next);
        SplitServed(Serve(Fresh(first), [], chunks, ack, next), Dispatch(payloads[0]),
                    Serve(Fresh(c), [], chunks[k..], mode, next), payloads);
      }
      if ReadsFit(payloads, chunks, ack, next) {
        var k := FirstEnd(payloads, chunks, ack, next);
        var c := WellCutIsServed(payloads[0], rest, chunks, ack, first, next, k);
        ConversationIsServed(payloads[1..], chunks[k..], mode, c, next);
      }
    }
  }

  lemma FirstEnd(payloads: seq<Bytes>, chunks: seq<Bytes>, ack: bool, next: ModeRule) returns (k: nat)
    requires payloads != [] && ReadsFit(payloads, chunks, ack, next)
    ensures EndsAt(payloads[0], chunks, ack, k)
    ensures ReadsFit(payloads[1..], chunks[k..], next(payloads[0], ack), next)
  {
    k :| 0 <= k <= |chunks| && EndsAt(payloads[0], chunks, ack, k)
         && ReadsFit(payloads[1..], chunks[k..], next(payloads[0], ack), next);
  }

  /** What follows a complete packet in the same read is dropped. */
  lemma SecondPacketOfAReadIsDropped(a: Bytes, b: Bytes, ack: bool, first: byte, next: ModeRule)
    requires HASH !in a
    ensures Serve(Fresh(first), [], [Framed(a, ack) + b], ack, next) == [Dispatch(a)]
  {
    var chunks := [Framed(a, ack) + b];
    assert Concat(chunks) == Framed(a, ack) + b;
    var k, c := HeadIsDispatched(a, b, chunks, ack, first, next);
    assert chunks[1..] == [];
  }
}
