/**
  The packet parser of the GDB Remote Serial Protocol: bytes arrive in reads of any size, and the parser
  goes on from where it stopped, over everything received so far.
*/
module Parser {
  import opened Memory
  import opened Strtol

  datatype Phase = Reset | Start | Skip | Digit0 | Digit1 | Nack | Error | Finished

  /** Phase, index, the bounds of the payload and the first checksum character. */
  datatype Progress = Progress(phase: Phase, idx: nat, start: nat, end: nat, first: byte)

  /** The parser and the bounds as a packet begins; `first` is left over from before. */
  function Fresh(first: byte): Progress { Progress(Reset, 0, 0, 0, first) }

  // ----- checksum

  function Sum(s: Bytes): nat {
    if s == [] then 0 else Sum(s[..|s| - 1]) + s[|s| - 1]
  }

  /** Up to eight megabytes the sum stays below 2^31, so the program's int does not overflow. */
  lemma {:induction false} SumFitsAnInt(s: Bytes)
    ensures Sum(s) <= 0xFF * |s| && (|s| <= 8 * 1024 * 1024 ==> Sum(s) < 0x8000_0000)
    decreases |s|
  {
    if s != [] { SumFitsAnInt(s[..|s| - 1]); }
  }

  function Checksum(s: Bytes): byte { Sum(s) % 0x100 }

  lemma SumSnoc(s: Bytes, b: byte)
    ensures Sum(s + [b]) == Sum(s) + b
  {
    assert (s + [b])[..|s + [b]| - 1] == s;
  }

  lemma {:induction false} SumAdds(a: Bytes, b: Bytes)
    ensures Sum(a + b) == Sum(a) + Sum(b)
    decreases |b|
  {
    if b == [] {
      assert a + b == a;
    } else {
      var c, last := b[..|b| - 1], b[|b| - 1];
      SumAdds(a, c);
      assert b == c + [last] && a + b == (a + c) + [last];
      SumSnoc(c, last);
      SumSnoc(a + c, last);
    }
  }

  /** The sum of all bytes modulo 256: that of one byte is the byte, and those of two parts add up. */
  lemma ChecksumAdds(a: Bytes, b: Bytes)
    ensures Checksum(a + b) == (Checksum(a) + Checksum(b)) % 0x100
  {
    SumAdds(a, b);
  }

  lemma ChecksumOfOne(b: byte)
    ensures Checksum([b]) == b && Checksum([]) == 0
  {
    assert Sum([b]) == Sum([]) + b;
  }

  /** sad_buff_checksum: the sum over the payload bounds, modulo 256. */
  method BuffChecksum(data: array<byte>, start: nat, end: nat) returns (r: byte)
    requires end <= data.Length
    ensures r == if start <= end then Checksum(data[start..end]) else 0
  {
    var i := start;
    var sum: int := 0;
    while i < end
      invariant start <= i && (start <= end ==> i <= end)
      invariant sum == if start <= end then Sum(data[start..i]) else 0
    {
      assert data[start..i + 1][..i - start] == data[start..i];
      sum := sum + data[i];
      i := i + 1;
    }
    r := sum % 0x100;
  }

  /** The value of two characters after the cast of `strtol`'s result to an unsigned byte. */
  function CheckValue(c0: byte, c1: byte): byte { Strtol16([c0, c1, 0]) % 0x100 }

  // ----- the incremental parser

  predicate Valid(p: Progress, data: Bytes) {
    && p.end <= p.idx <= |data|
    && (p.phase == Skip ==> p.start <= p.idx)
    && (p.phase == Digit0 || p.phase == Digit1 ==> p.start <= p.end)
  }

  /** One turn of the loop; with acknowledgements off, leaving Reset need not consume a byte. */
  function Turn(p: Progress, data: Bytes, ack: bool): (r: Progress)
    requires Valid(p, data) && p.idx < |data|
    ensures Valid(r, data)
    ensures p.idx <= r.idx <= p.idx + 1 && (r.idx == p.idx ==> p.phase == Reset && r.phase == Start)
  {
    var c, next := data[p.idx], p.idx + 1;
    match p.phase
    case Reset =>
      if ack then p.(idx := next, phase := if c == PLUS then Start else if c == MINUS then Nack else Reset)
      else if c == PLUS then p.(idx := next, phase := Start)
      else p.(phase := Start)
    case Start =>
      if c == DOLLAR then p.(idx := next, start := next, phase := Skip) else p.(idx := next, phase := Error)
    case Skip =>
      if c != HASH then p.(idx := next)
      else p.(idx := next, end := p.idx, phase := if ack then Digit0 else Finished)
    case Digit0 => p.(idx := next, first := c, phase := Digit1)
    case Digit1 =>
      p.(idx := next, phase := if CheckValue(p.first, c) == Checksum(data[p.start..p.end]) then Finished else Error)
    case _ => p.(idx := next)
  }

  /** The loop over the bytes received so far. The turn that consumes nothing happens at most once. */
  function Parse(p: Progress, data: Bytes, ack: bool): (r: Progress)
    requires Valid(p, data)
    ensures Valid(r, data) && r.idx == |data|
    decreases |data| - p.idx, p.phase == Reset
  {
    if p.idx == |data| then p else Parse(Turn(p, data, ack), data, ack)
  }

  /** Parsing what has arrived and going on when more has arrived, read by read. */
  function Feed(p: Progress, data: Bytes, chunks: seq<Bytes>, ack: bool): Progress
    requires Valid(p, data)
    decreases |chunks|
  {
    if chunks == [] then p
    else
      var more := data + chunks[0];
      Feed(Parse(p, more, ack), more, chunks[1..], ack)
  }

  /** A turn looks at nothing beyond the byte it is at. */
  lemma TurnIgnoresTheFuture(p: Progress, data: Bytes, more: Bytes, ack: bool)
    requires Valid(p, data) && p.idx < |data|
    ensures Turn(p, data + more, ack) == Turn(p, data, ack)
  {
    if p.phase == Digit1 { assert (data + more)[p.start..p.end] == data[p.start..p.end]; }
  }

  /** Parsing a part first makes no difference. */
  lemma {:induction false} ParseResumes(p: Progress, data: Bytes, more: Bytes, ack: bool)
    requires Valid(p, data)
    ensures Parse(Parse(p, data, ack), data + more, ack) == Parse(p, data + more, ack)
    decreases |data| - p.idx, p.phase == Reset
  {
    if p.idx < |data| {
      TurnIgnoresTheFuture(p, data, more, ack);
      ParseResumes(Turn(p, data, ack), data, more, ack);
    }
  }

  /** Chunk independence: however the bytes are cut into reads, the parser ends as if they came at once. */
  lemma {:induction false} ChunksDoNotMatter(p: Progress, data: Bytes, chunks: seq<Bytes>, ack: bool)
    requires Valid(p, data) && p.idx == |data|
    ensures Feed(p, data, chunks, ack) == Parse(p, data + Concat(chunks), ack)
    decreases |chunks|
  {
    if chunks == [] {
      assert data + Concat(chunks) == data;
    } else {
      var more := data + chunks[0];
      assert more + Concat(chunks[1..]) == data + Concat(chunks);
      ChunksDoNotMatter(Parse(p, more, ack), more, chunks[1..], ack);
      ParseResumes(p, more, Concat(chunks[1..]), ack);
    }
  }

  // ----- what the parser recognises

  /** The first index from `i` on whose byte is `a` or `b`. */
  function First(data: Bytes, i: nat, a: byte, b: byte): (r: nat)
    requires i <= |data|
    ensures i <= r <= |data| && (r < |data| ==> data[r] == a || data[r] == b)
    ensures forall k :: i <= k < r ==> data[k] != a && data[k] != b
    decreases |data| - i
  {
    if i == |data| || data[i] == a || data[i] == b then i else First(data, i + 1, a, b)
  }

  /** The verdict on a packet whose payload begins at `s`. */
  function FromPayload(data: Bytes, s: nat, ack: bool, first: byte): Progress
    requires s <= |data|
  {
    var n := |data|;
    var e := First(data, s, HASH, HASH);
    if e == n then Progress(Skip, n, s, 0, first)
    else if !ack then Progress(Finished, n, s, e, first)
    else if e + 1 == n then Progress(Digit0, n, s, e, first)
    else if e + 2 == n then Progress(Digit1, n, s, e, data[e + 1])
    else if CheckValue(data[e + 1], data[e + 2]) == Checksum(data[s..e]) then Progress(Finished, n, s, e, data[e + 1])
    else Progress(Error, n, s, e, data[e + 1])
  }

  /** The verdict on a packet whose `$` is expected at `i`. */
  function FromDollar(data: Bytes, i: nat, ack: bool, first: byte): Progress
    requires i <= |data|
  {
    if i == |data| then Progress(Start, i, 0, 0, first)
    else if data[i] != DOLLAR then Progress(Error, |data|, 0, 0, first)
    else FromPayload(data, i + 1, ack, first)
  }

  /** The packet grammar, by position: everything before the first acknowledgement is skipped. */
  function Recognise(data: Bytes, ack: bool, first: byte): Progress {
    if ack then
      var i := First(data, 0, PLUS, MINUS);
      if i == |data| then Progress(Reset, i, 0, 0, first)
      else if data[i] == MINUS then Progress(Nack, |data|, 0, 0, first)
      else FromDollar(data, i + 1, ack, first)
    else if data == [] then Fresh(first)
    else FromDollar(data, if data[0] == PLUS then 1 else 0, ack, first)
  }

  /** A verdict stays. */
  lemma {:induction false} Final(p: Progress, data: Bytes, ack: bool)
    requires Valid(p, data) && p.phase in {Nack, Error, Finished}
    ensures Parse(p, data, ack) == p.(idx := |data|)
    decreases |data| - p.idx
  {
    if p.idx < |data| { Final(Turn(p, data, ack), data, ack); }
  }

  lemma {:induction false} FromReset(p: Progress, data: Bytes)
    requires Valid(p, data) && p.phase == Reset
    ensures
      var i := First(data, p.idx, PLUS, MINUS);
      Parse(p, data, true) ==
      if i == |data| then p.(idx := i)
      else if data[i] == MINUS then p.(phase := Nack, idx := |data|)
      else Parse(p.(phase := Start, idx := i + 1), data, true)
    decreases |data| - p.idx
  {
    if p.idx < |data| {
      var c, q := data[p.idx], Turn(p, data, true);
      if c == MINUS { Final(q, data, true); } else if c != PLUS { FromReset(q, data); }
    }
  }

  lemma {:induction false} FromSkip(p: Progress, data: Bytes, ack: bool)
    requires Valid(p, data) && p.phase == Skip
    ensures
      var e := First(data, p.idx, HASH, HASH);
      Parse(p, data, ack) ==
      if e == |data| then p.(idx := e)
      else Parse(p.(phase := if ack then Digit0 else Finished, end := e, idx := e + 1), data, ack)
    decreases |data| - p.idx
  {
    if p.idx < |data| && data[p.idx] != HASH { FromSkip(Turn(p, data, ack), data, ack); }
  }

  lemma FromDigits(p: Progress, data: Bytes)
    requires Valid(p, data) && p.phase == Digit0
    ensures
      var i := p.idx;
      Parse(p, data, true) ==
      if i == |data| then p
      else if i + 1 == |data| then p.(phase := Digit1, first := data[i], idx := i + 1)
      else
        var good := CheckValue(data[i], data[i + 1]) == Checksum(data[p.start..p.end]);
        p.(phase := if good then Finished else Error, first := data[i], idx := |data|)
  {
    if p.idx < |data| {
      FromDigit1(Turn(p, data, true), data);
    }
  }

  lemma FromDigit1(p: Progress, data: Bytes)
    requires Valid(p, data) && p.phase == Digit1
    ensures
      Parse(p, data, true) ==
      if p.idx == |data| then p
      else
        var good := CheckValue(p.first, data[p.idx]) == Checksum(data[p.start..p.end]);
        p.(phase := if good then Finished else Error, idx := |data|)
  {
    if p.idx < |data| { Final(Turn(p, data, true), data, true); }
  }

  lemma FromSkipToVerdict(q: Progress, data: Bytes, ack: bool)
    requires Valid(q, data) && q.phase == Skip && q.start == q.idx && q.end == 0
    ensures Parse(q, data, ack) == FromPayload(data, q.idx, ack, q.first)
  {
    FromSkip(q, data, ack);
    var e := First(data, q.idx, HASH, HASH);
    if e < |data| && ack {
      FromHashAcked(q.(phase := Digit0, end := e, idx := e + 1), data, q.idx, e);
    } else if e < |data| {
      Final(q.(phase := Finished, end := e, idx := e + 1), data, ack);
    }
  }

  lemma FromHashAcked(d: Progress, data: Bytes, s: nat, e: nat)
    requires Valid(d, data) && d.phase == Digit0 && d.start == s <= d.end == e < |data| && d.idx == e + 1
    requires First(data, s, HASH, HASH) == e
    ensures Parse(d, data, true) == FromPayload(data, s, true, d.first)
  {
    FromDigits(d, data);
  }

  lemma FromStart(p: Progress, data: Bytes, ack: bool)
    requires Valid(p, data) && p.phase == Start && p.start == p.end == 0
    ensures Parse(p, data, ack) == FromDollar(data, p.idx, ack, p.first)
  {
    if p.idx < |data| {
      var q := Turn(p, data, ack);
      if q.phase == Error { Final(q, data, ack); } else { FromSkipToVerdict(q, data, ack); }
    }
  }

  /** The incremental parser decides exactly the grammar, in both modes and for every input. */
  lemma ParserRecognises(data: Bytes, ack: bool, first: byte)
    ensures Parse(Fresh(first), data, ack) == Recognise(data, ack, first)
  {
    var p := Fresh(first);
    if ack {
      FromReset(p, data);
      var i := First(data, 0, PLUS, MINUS);
      if i < |data| && data[i] == PLUS { FromStart(p.(phase := Start, idx := i + 1), data, ack); }
    } else if data != [] {
      FromStart(Turn(p, data, ack), data, ack);
    }
  }

  /** A complete packet: skipped bytes, `+$`, payload, `#`, two characters that check. */
  predicate Packet(data: Bytes, skip: Bytes, payload: Bytes, c0: byte, c1: byte, rest: Bytes) {
    && data == skip + [PLUS, DOLLAR] + payload + [HASH, c0, c1] + rest
    && PLUS !in skip && MINUS !in skip && HASH !in payload
    && CheckValue(c0, c1) == Checksum(payload)
  }

  /** Where the parts of a packet are. */
  lemma Layout(data: Bytes, skip: Bytes, payload: Bytes, c0: byte, c1: byte, rest: Bytes, s: nat, e: nat)
    requires data == skip + [PLUS, DOLLAR] + payload + [HASH, c0, c1] + rest
    requires s == |skip| + 2 && e == s + |payload|
    ensures e + 3 <= |data| && data[..s - 2] == skip && data[s..e] == payload
    ensures data[s - 2] == PLUS && data[s - 1] == DOLLAR && data[e] == HASH && data[e + 1] == c0 && data[e + 2] == c1
  {}

  lemma FirstIs(data: Bytes, i: nat, a: byte, b: byte, r: nat)
    requires i <= r < |data| && a !in data[i..r] && b !in data[i..r] && (data[r] == a || data[r] == b)
    ensures First(data, i, a, b) == r
  {
    forall k | i <= k < r
      ensures data[k] in data[i..r]
    {
      assert data[i..r][k - i] == data[k];
    }
  }

  lemma PacketPositions(data: Bytes, skip: Bytes, payload: Bytes, c0: byte, c1: byte, rest: Bytes, s: nat, e: nat)
    requires Packet(data, skip, payload, c0, c1, rest) && s == |skip| + 2 && e == s + |payload|
    ensures e + 3 <= |data| && First(data, 0, PLUS, MINUS) == s - 2 && data[s - 2] == PLUS && data[s - 1] == DOLLAR
    ensures First(data, s, HASH, HASH) == e && data[e + 1] == c0 && data[e + 2] == c1 && data[s..e] == payload
  {
    Layout(data, skip, payload, c0, c1, rest, s, e);
    assert data[0..s - 2] == data[..s - 2];
    FirstIs(data, 0, PLUS, MINUS, s - 2);
    FirstIs(data, s, HASH, HASH, e);
  }

  ghost predicate IsPacket(data: Bytes) {
    exists skip, payload, c0, c1, rest :: Packet(data, skip, payload, c0, c1, rest)
  }

  /** With acknowledgements on, the parser finishes exactly on complete packets. */
  lemma FinishedOnPackets(data: Bytes, first: byte)
    ensures Parse(Fresh(first), data, true).phase == Finished <==> IsPacket(data)
  {
    ParserRecognises(data, true, first);
    if Parse(Fresh(first), data, true).phase == Finished {
      FinishedIsPacket(data, first);
    } else if IsPacket(data) {
      var skip, payload, c0, c1, rest :| Packet(data, skip, payload, c0, c1, rest);
      PacketIsUnique(data, first, skip, payload, c0, c1, rest);
    }
  }

  lemma FinishedIsPacket(data: Bytes, first: byte)
    requires Recognise(data, true, first).phase == Finished
    ensures
      var p := Recognise(data, true, first);
      && 2 <= p.start <= p.end && p.end + 3 <= |data|
      && Packet(data, data[..p.start - 2], data[p.start..p.end], data[p.end + 1], data[p.end + 2], data[p.end + 3..])
  {
    var p := Recognise(data, true, first);
    Reassembled(data, p.start, p.end);
  }

  lemma Reassembled(data: Bytes, s: nat, e: nat)
    requires 2 <= s <= e && e + 3 <= |data|
    ensures data == data[..s - 2] + [data[s - 2], data[s - 1]] + data[s..e]
                    + [data[e], data[e + 1], data[e + 2]] + data[e + 3..]
  {}

  /** The payload bounds found are those of any reading of the input as a packet. */
  lemma PacketIsUnique(data: Bytes, first: byte, skip: Bytes, payload: Bytes, c0: byte, c1: byte, rest: Bytes)
    requires Packet(data, skip, payload, c0, c1, rest)
    ensures
      var p := Parse(Fresh(first), data, true);
      p.phase == Finished && p.start == |skip| + 2 && p.end == p.start + |payload| && data[p.start..p.end] == payload
  {
    ParserRecognises(data, true, first);
    PacketPositions(data, skip, payload, c0, c1, rest, |skip| + 2, |skip| + 2 + |payload|);
  }

  // ----- the parser as the program writes it

  /** parser_g, the bounds kept in the input buffer, and the static checksum characters. */
  class PacketParser {
    var phase: Phase
    var idx: nat
    var start: nat
    var end: nat
    var first: byte

    constructor ()
      ensures View() == Fresh(0)
    {
      phase, idx, start, end, first := Reset, 0, 0, 0, 0;
    }

    ghost function View(): Progress
      reads this
    {
      Progress(phase, idx, start, end, first)
    }

    /** sad_parser_reset, with the bounds reset by the buffer. */
    method ResetParser()
      modifies this
      ensures View() == Fresh(old(first))
    {
      phase, idx, start, end := Reset, 0, 0, 0;
    }

    /** The body of the loop. */
    method Advance(data: array<byte>, filled: nat, ack: bool)
      requires filled <= data.Length && idx < filled && Valid(View(), data[..filled])
      modifies this
      ensures View() == Turn(old(View()), data[..filled], ack)
    {
      var c := data[idx];
      match phase {
        case Reset =>
          if ack {
            if c == PLUS { phase := Start; }
            if c == MINUS { phase := Nack; }
          } else {
            phase := Start;
            if c != PLUS { return; }
          }
        case Start =>
          if c == DOLLAR {
            start := idx + 1;
            phase := Skip;
          } else {
            phase := Error;
          }
        case Skip =>
          if c == HASH {
            end := idx;
            if ack { phase := Digit0; } else { phase := Finished; }
          }
        case Digit0 =>
          first := c;
          phase := Digit1;
        case Digit1 =>
          var value := CheckValue(first, c);
          var sum := BuffChecksum(data, start, end);
          assert data[..filled][start..end] == data[start..end];
          if value != sum { phase := Error; } else { phase := Finished; }
        case _ =>
      }
      idx := idx + 1;
    }

    /** sad_parser_pkt, over the filled part of the input buffer. */
    method ParsePacket(data: array<byte>, filled: nat, ack: bool)
      requires filled <= data.Length && Valid(View(), data[..filled])
      modifies this
      ensures View() == Parse(old(View()), data[..filled], ack)
    {
      while idx < filled
        invariant Valid(View(), data[..filled])
        invariant Parse(View(), data[..filled], ack) == Parse(old(View()), data[..filled], ack)
        decreases filled - idx, phase == Reset
      {
        Advance(data, filled, ack);
      }
    }
  }
}
