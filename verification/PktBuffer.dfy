/** The growing packet buffer, and the loop that writes it out. */
module PktBuffer {
  import opened Memory
  import opened Words

  const MAX_BUFF_DATA_SIZE := 4096

  datatype BuffRet = BuffOk | BuffOom | BuffFdErr | BuffWouldBlock | BuffPending

  /** The size reached by doubling until `need` bytes fit. */
  function Grown(size: nat, need: nat): (r: nat)
    requires size > 0
    ensures r >= need && r >= size && (r > size ==> r < 2 * need)
    decreases need - size
  {
    if need <= size then size else Grown(2 * size, need)
  }

  /** A result of the write call; a write takes at most what it is given. */
  datatype WriteResult = Wrote(count: nat) | Interrupted | WouldBlock | Failed

  lemma DoubledOnce(size: nat, j: nat)
    ensures (2 * size) * Pow2(j) == size * Pow2(j + 1)
  {
    Twice(size, Pow2(j));
    assert (2 * size) * Pow2(j) == 2 * (size * Pow2(j));
  }

  /** That is the size doubled as often as needed: the last doubling but one was too small. */
  lemma {:induction false} GrownByDoubling(size: nat, need: nat) returns (k: nat)
    requires size > 0
    ensures Grown(size, need) == size * Pow2(k)
    ensures k > 0 ==> size * Pow2(k - 1) < need
    decreases need - size
  {
    k := 0;
    if need > size {
      var j := GrownByDoubling(2 * size, need);
      k := j + 1;
      DoubledOnce(size, j);
      if j > 0 { DoubledOnce(size, j - 1); }
    }
  }

  /** How many of the calls make progress. */
  function Progressing(writes: seq<WriteResult>): nat {
    if writes == [] then 0
    else
      var last := writes[|writes| - 1];
      Progressing(writes[..|writes| - 1]) + if last.Wrote? && last.count > 0 then 1 else 0
  }

  class Buffer {
    var initialSize: nat
    var filled: nat
    var dataSize: nat
    var data: array<byte>

    /** The bookkept size is the allocated one. */
    ghost predicate Valid()
      reads this
    {
      initialSize > 0 && dataSize > 0 && filled <= dataSize && data.Length == dataSize
    }

    ghost function Contents(): Bytes
      requires filled <= data.Length
      reads this, data
    {
      data[..filled]
    }

    /** sad_buff_create refuses a size of zero; see Create. */
    constructor (size: nat)
      requires size > 0
      ensures Valid() && fresh(data) && Contents() == [] && dataSize == initialSize == size
    {
      initialSize, dataSize, filled := size, size, 0;
      data := new byte[size];
    }

    static method Create(size: nat) returns (b: Buffer?)
      ensures b == null <==> size == 0
      ensures b != null ==> fresh(b) && fresh(b.data) && b.Valid() && b.Contents() == [] && b.dataSize == size
    {
      if size == 0 { return null; }
      b := new Buffer(size);
    }

    /**
      sad_buff_reset. A buffer that has grown to the threshold gets a new block of the initial size while
      the bookkept size stays, so it is left consistent if and only if it has not grown that far.
    */
    method Reset()
      requires Valid()
      modifies this
      ensures filled == 0 && dataSize == old(dataSize) && initialSize == old(initialSize)
      ensures data.Length == if old(dataSize) >= MAX_BUFF_DATA_SIZE then initialSize else old(data.Length)
      ensures data == old(data) || fresh(data)
      ensures Valid() <==> old(dataSize) < MAX_BUFF_DATA_SIZE || old(dataSize) == initialSize
    {
      if dataSize >= MAX_BUFF_DATA_SIZE { data := new byte[initialSize]; }
      filled := 0;
    }

    /** sad_buff_expand, where the allocator grants blocks up to `limit` bytes. */
    method Expand(limit: nat) returns (r: BuffRet)
      requires Valid()
      modifies this
      ensures Valid() && Contents() == old(Contents()) && initialSize == old(initialSize)
      ensures data == old(data) || fresh(data)
      ensures r == if 2 * old(dataSize) <= limit then BuffOk else BuffOom
      ensures dataSize == (if r == BuffOk then 2 else 1) * old(dataSize)
    {
      if 2 * dataSize > limit { return BuffOom; }
      var bigger := new byte[2 * dataSize];
      forall i | 0 <= i < dataSize { bigger[i] := data[i]; }
      data, dataSize := bigger, 2 * dataSize;
      return BuffOk;
    }

    /** sad_buff_append: all of the bytes behind what is there, or nothing if memory runs out. */
    method Append(bytes: Bytes, limit: nat) returns (r: BuffRet)
      requires Valid()
      modifies this, data
      ensures Valid() && initialSize == old(initialSize) && (data == old(data) || fresh(data))
      ensures r == (if old(dataSize) < old(filled) + |bytes| && Grown(old(dataSize), old(filled) + |bytes|) > limit
                    then BuffOom else BuffOk)
      ensures Contents() == if r == BuffOk then old(Contents()) + bytes else old(Contents())
      ensures r == BuffOk ==> dataSize == Grown(old(dataSize), old(filled) + |bytes|)
    {
      var need := filled + |bytes|;
      while need > dataSize
        invariant Valid() && Contents() == old(Contents()) && initialSize == old(initialSize)
        invariant data == old(data) || fresh(data)
        invariant Grown(dataSize, need) == Grown(old(dataSize), need)
        invariant dataSize == old(dataSize) || dataSize <= limit
        decreases need - dataSize
      {
        r := Expand(limit);
        if r == BuffOom { return; }
      }
      Copy(bytes);
      filled := need;
      return BuffOk;
    }

    /** Copy the bytes behind the contents. */
    method Copy(bytes: Bytes)
      requires filled + |bytes| <= data.Length
      modifies data
      ensures data[..filled + |bytes|] == old(Contents()) + bytes
    {
      var at := filled;
      forall i | 0 <= i < |bytes| { data[at + i] := bytes[i]; }
    }

    /**
      The write-all loop of sad_buff_to_socket, when the write calls return `writes` in turn. What goes out
      is a prefix of the contents; all of it exactly on success. Only a failure or an empty write ends the
      loop early, and enough calls that make progress end it in success.
    */
    method ToSocket(writes: seq<WriteResult>) returns (r: BuffRet, sent: Bytes)
      requires Valid()
      ensures |sent| <= filled && sent == Contents()[..|sent|]
      ensures r == BuffOk <==> sent == Contents()
      ensures r == BuffWouldBlock ==> WouldBlock in writes
      ensures r == BuffFdErr ==> Failed in writes || Wrote(0) in writes
      ensures r == BuffPending ==> Progressing(writes) <= |sent| < filled
      ensures r != BuffOom
    {
      var total, left, call := 0, filled, 0;
      sent := [];
      while total != filled && call < |writes|
        invariant 0 <= call <= |writes| && total + left == filled && |sent| == total
        invariant sent == Contents()[..total]
        invariant Progressing(writes[..call]) <= total
      {
        var w := writes[call];
        assert writes[..call + 1][..call] == writes[..call];
        call := call + 1;
        match w {
          case Interrupted => continue;
          case WouldBlock => return BuffWouldBlock, sent;
          case Failed => return BuffFdErr, sent;
          case Wrote(k) =>
            if k == 0 { return BuffFdErr, sent; }
            var n := if k < left then k else left;
            assert Contents()[..total + n] == sent + data[total..total + n];
            sent := sent + data[total..total + n];
            left, total := left - n, total + n;
        }
      }
      assert total != filled ==> writes[..call] == writes;
      r := if total == filled then BuffOk else BuffPending;
    }
  }

  lemma GrownTo4096()
    ensures Grown(128, 2049) == 4096
  {
    assert Grown(128, 2049) == Grown(256, 2049) == Grown(512, 2049);
    assert Grown(512, 2049) == Grown(1024, 2049) == Grown(2048, 2049) == Grown(4096, 2049);
  }

  /** A buffer of 128 bytes that took 2049 comes out of a reset with a block smaller than it believes. */
  method ResetSpoilsAGrownBuffer(limit: nat) returns (b: Buffer)
    requires limit >= 4096
    ensures fresh(b) && !b.Valid() && b.filled == 0 && b.dataSize == 4096 && b.data.Length == 128
  {
    b := new Buffer(128);
    var r := b.Append(seq(2049, _ => 0), limit);
    GrownTo4096();
    b.Reset();
  }

  const PTRDIFF_MAX := 0x7FFF_FFFF_FFFF_FFFF

  /** No C object is larger than PTRDIFF_MAX bytes, so neither the sum nor the doubling wraps around in a size_t. */
  lemma SizesDoNotWrap(filled: nat, dataSize: nat, bytes: nat)
    requires filled <= dataSize <= PTRDIFF_MAX && bytes <= PTRDIFF_MAX
    ensures (filled + bytes) % 0x1_0000_0000_0000_0000 == filled + bytes
    ensures (2 * dataSize) % 0x1_0000_0000_0000_0000 == 2 * dataSize
  {}

  /** Over any sequence of appends the contents are the concatenation of everything appended, up to piece `n`. */
  method AppendAll(b: Buffer, pieces: seq<Bytes>, limit: nat) returns (r: BuffRet, n: nat)
    requires b.Valid()
    modifies b, b.data
    ensures b.Valid() && n <= |pieces| && b.Contents() + Concat(pieces[n..]) == old(b.Contents()) + Concat(pieces)
    ensures r == if n == |pieces| then BuffOk else BuffOom
  {
    n := 0;
    assert pieces[0..] == pieces;
    while n < |pieces|
      invariant b.Valid() && 0 <= n <= |pieces| && (b.data == old(b.data) || fresh(b.data))
      invariant b.Contents() + Concat(pieces[n..]) == old(b.Contents()) + Concat(pieces)
    {
      r := b.Append(pieces[n], limit);
      if r == BuffOom { return; }
      assert pieces[n..][1..] == pieces[n + 1..];
      n := n + 1;
    }
    r := BuffOk;
  }
}
