/** Framing of replies: every frame is recognised again as the payload it was built around. */
module Frame {
  import opened Memory
  import opened Strtol
  import opened Parser

  /** What is sent around a payload. */
  function Framed(payload: Bytes, ack: bool): Bytes {
    (if ack then [PLUS, DOLLAR] else [DOLLAR]) + payload + [HASH] + TwoDigits(Checksum(payload))
  }

  /** The two digits of a checksum are read back as its value. */
  lemma ChecksumReadsBack(b: byte)
    ensures var d := TwoDigits(b); CheckValue(d[0], d[1]) == b
  {
    var d := TwoDigits(b);
    var s: Bytes := [d[0], d[1], 0];
    assert CString(s) == d by {
      assert s[1..] == [d[1], 0] && s[1..][1..] == [0];
      assert CString([0]) == [];
      assert CString([d[1], 0]) == [d[1]];
    }
    TwoDigitsValue(b);
    PlainIsRead(d);
    PlainHasNoNul(d);
  }

  lemma TwoDigitsValue(b: byte)
    ensures Digits(TwoDigits(b), 0) == b
  {
    var d := TwoDigits(b);
    assert d[1..] == [d[1]] && d[1..][1..] == [];
    assert Digits(d[1..], b / 16) == Digits(d[1..][1..], 16 * (b / 16) + b % 16);
  }

  /** A stretch of a frame: where its parts are. */
  lemma FrameLayout(payload: Bytes, ack: bool, f: Bytes, s: nat, e: nat)
    requires f == Framed(payload, ack) && s == (if ack then 2 else 1) && e == s + |payload|
    ensures |f| == e + 3 && f[s - 1] == DOLLAR && (ack ==> f[0] == PLUS) && f[s..e] == payload && f[e] == HASH
    ensures f[e + 1..] == TwoDigits(Checksum(payload)) && [f[e + 1], f[e + 2]] == TwoDigits(Checksum(payload))
  {}

  predicate Delimits(p: Progress, data: Bytes, payload: Bytes) {
    p.phase == Finished && p.start <= p.end <= |data| && data[p.start..p.end] == payload
  }

  /**
    Round trip. A parser that starts afresh finds the payload of a frame again if and only if the payload
    has no `#`. The frame may have been built while acknowledgements were on and be parsed with
    acknowledgements off, as happens to the reply that confirms turning them off.
  */
  lemma FrameRoundTrip(payload: Bytes, built: bool, parsed: bool, first: byte)
    requires parsed ==> built
    ensures Delimits(Parse(Fresh(first), Framed(payload, built), parsed), Framed(payload, built), payload)
            <==> HASH !in payload
  {
    var s := if built then 2 else 1;
    FrameLayout(payload, built, Framed(payload, built), s, s + |payload|);
    LayoutRoundTrip(Framed(payload, built), payload, s, parsed, first);
  }

  /** The same for any bytes laid out like a frame whose payload begins at `s`. */
  lemma LayoutRoundTrip(f: Bytes, payload: Bytes, s: nat, parsed: bool, first: byte)
    requires 1 <= s <= 2 && (parsed ==> s == 2) && |f| == s + |payload| + 3
    requires f[s - 1] == DOLLAR && (s == 2 ==> f[0] == PLUS)
    requires f[s..s + |payload|] == payload && f[s + |payload|] == HASH
    requires var e := s + |payload|; [f[e + 1], f[e + 2]] == TwoDigits(Checksum(payload))
    ensures Delimits(Parse(Fresh(first), f, parsed), f, payload) <==> HASH !in payload
  {
    ParserRecognises(f, parsed, first);
    RecogniseFrame(f, parsed, first, s);
    if HASH !in payload {
      FirstIs(f, s, HASH, HASH, s + |payload|);
      ChecksumReadsBack(Checksum(payload));
    } else {
      EarlierHash(f, payload, s);
    }
  }

  lemma EarlierHash(f: Bytes, payload: Bytes, s: nat)
    requires s + |payload| <= |f| && f[s..s + |payload|] == payload && HASH in payload
    ensures First(f, s, HASH, HASH) < s + |payload|
  {
    var k: nat :| k < |payload| && payload[k] == HASH;
    assert f[s..s + |payload|][k] == f[s + k];
  }

  lemma RecogniseFrame(f: Bytes, ack: bool, first: byte, s: nat)
    requires 1 <= s <= 2 && s <= |f| && f[s - 1] == DOLLAR && (s == 2 ==> f[0] == PLUS) && (ack ==> s == 2)
    ensures Recognise(f, ack, first) == FromPayload(f, s, ack, first)
  {
    if ack { assert First(f, 0, PLUS, MINUS) == 0; }
  }
}
