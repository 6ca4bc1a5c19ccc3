/** Packets of linux-one (one/packet.c): written from an iovec, read into an iovec.

    The target of a read is described as one array, the segments laid end to end. */
module OnePackets {
  import opened Errno
  import opened Messages
  import opened Sequences

  const MAX_SIZE: nat := 32768
  const COMPRESSED: nat := 1

  datatype PacketHeader = PacketHeader(queueId: nat, flags: nat, size: nat, uncompressed: nat) {
    function Bytes(): (b: seq<Byte>)
      ensures |b| == HEADER
    {
      Word(queueId) + Word(flags) + Word(size) + Word(uncompressed)
    }
  }

  function Concat(iov: seq<seq<Byte>>): seq<Byte> {
    if iov == [] then [] else Concat(iov[..|iov| - 1]) + iov[|iov| - 1]
  }

  function Sum(lens: seq<nat>): nat {
    if lens == [] then 0 else Sum(lens[..|lens| - 1]) + lens[|lens| - 1]
  }

  /** How the gathering loop ends when `len` bytes are expected and the copy after `copies`
      successful ones fails. */
  function Gathered(iov: seq<seq<Byte>>, len: nat, copies: nat): (status: Status)
    ensures status in {Ok, Einval, Efault}
  {
    if iov == [] then if len == 0 then Ok else Einval
    else if |iov[0]| > len then Einval
    else if copies == 0 then Efault
    else Gathered(iov[1..], len - |iov[0]|, copies - 1)
  }

  lemma {:induction false} ConcatFirst(iov: seq<seq<Byte>>)
    requires iov != []
    ensures Concat(iov) == iov[0] + Concat(iov[1..])
  {
    if |iov| <= 1 {
    } else {
      ConcatFirst(iov[..|iov| - 1]);
      assert iov[..|iov| - 1][1..] == iov[1..][..|iov[1..]| - 1];
      Associates(iov[0], Concat(iov[1..][..|iov[1..]| - 1]), iov[|iov| - 1]);
    }
  }

  /** Without a fault, a write succeeds exactly when the iovec holds as much as the header says. */
  lemma {:induction false} GatheredExactly(iov: seq<seq<Byte>>, len: nat, copies: nat)
    requires copies >= |iov|
    ensures Gathered(iov, len, copies) == if |Concat(iov)| == len then Ok else Einval
  {
    if iov == [] {
    } else {
      ConcatFirst(iov);
      if |iov[0]| <= len {
        GatheredExactly(iov[1..], len - |iov[0]|, copies - 1);
      }
    }
  }

  /** A write runs into a fault exactly when its first segment whose copy fails is one it gets to: all
      up to it fit what the header says. */
  lemma {:induction false} GatherFaultsExactly(iov: seq<seq<Byte>>, len: nat, copies: nat)
    ensures Gathered(iov, len, copies) == Efault <==> copies < |iov| && |Concat(iov[..copies + 1])| <= len
  {
    if iov == [] {
    } else {
      if copies < |iov| {
        ConcatFirst(iov[..copies + 1]);
        assert iov[..copies + 1][1..] == iov[1..][..copies];
      }
      if |iov[0]| <= len && copies > 0 {
        GatherFaultsExactly(iov[1..], len - |iov[0]|, copies - 1);
      }
    }
  }

  lemma {:induction false} GatheredOk(iov: seq<seq<Byte>>, len: nat, copies: nat)
    ensures Gathered(iov, len, copies) == Ok ==> |Concat(iov)| == len
  {
    if iov != [] && |iov[0]| <= len && copies != 0 {
      ConcatFirst(iov);
      GatheredOk(iov[1..], len - |iov[0]|, copies - 1);
    }
  }

  // Reading.

  /** The start of the segment that holds position `pos`. */
  function SegmentStart(lens: seq<nat>, pos: nat): nat
    requires pos < Sum(lens)
  {
    var before := Sum(lens[..|lens| - 1]);
    if pos >= before then before else SegmentStart(lens[..|lens| - 1], pos)
  }

  /** The first position of a packet that is copied together with position `p`, when the
      packet goes to `offset`. */
  function PieceStart(lens: seq<nat>, offset: nat, p: nat): nat
    requires offset + p < Sum(lens)
  {
    var start := SegmentStart(lens, offset + p);
    if start > offset then start - offset else 0
  }

  /** Which byte of the packet's memory, header and buffer, ends up at position `p`. The source
      address of a piece of the header is scaled by the header's size. */
  function SourceOf(lens: seq<nat>, offset: nat, p: nat): nat
    requires offset + p < Sum(lens)
  {
    if p < HEADER then
      var r := PieceStart(lens, offset, p);
      HEADER * r + p - r
    else p
  }

  /** How much of a packet of `n` bytes, read to `offset`, lies before position `pos`. */
  function Reach(pos: nat, offset: nat, n: nat): nat {
    if pos <= offset then 0 else if pos - offset < n then pos - offset else n
  }

  /** How many copies fill the segment from `start` to `end`: one for the part of the header that
      falls into it, one for the part of the data. */
  function PiecesIn(start: nat, end: nat, offset: nat, n: nat): nat {
    var a, b := Reach(start, offset, n), Reach(end, offset, n);
    (if a < b && a < HEADER then 1 else 0) + (if a < b && b > HEADER then 1 else 0)
  }

  /** How many copies a read of `n` bytes to `offset` makes. */
  function Pieces(lens: seq<nat>, offset: nat, n: nat): nat {
    if lens == [] then 0
    else Pieces(lens[..|lens| - 1], offset, n) + PiecesIn(Sum(lens[..|lens| - 1]), Sum(lens), offset, n)
  }

  /** Every copy moves a byte of the packet, so there are no more copies than bytes. */
  lemma {:induction false} PiecesBounded(lens: seq<nat>, offset: nat, n: nat)
    ensures Pieces(lens, offset, n) <= Reach(Sum(lens), offset, n)
  {
    if lens == [] {
    } else {
      PiecesBounded(lens[..|lens| - 1], offset, n);
    }
  }

  /** How many segments hold some of the positions between `from` and `to`. */
  function Touched(lens: seq<nat>, from: nat, to: nat): nat {
    if lens == [] then 0
    else
      var start, end := Sum(lens[..|lens| - 1]), Sum(lens);
      Touched(lens[..|lens| - 1], from, to)
      + if (if start > from then start else from) < (if end < to then end else to) then 1 else 0
  }

  /** One copy for each segment that a part of the header goes to, and one for each that a part of
      the data goes to. */
  lemma {:induction false} PiecesExactly(lens: seq<nat>, offset: nat, n: nat)
    requires n >= HEADER
    ensures Pieces(lens, offset, n)
         == Touched(lens, offset, offset + HEADER) + Touched(lens, offset + HEADER, offset + n)
  {
    if lens == [] {
    } else {
      PiecesExactly(lens[..|lens| - 1], offset, n);
    }
  }

  lemma PiecesNext(lens: seq<nat>, i: nat, offset: nat, n: nat)
    requires i < |lens|
    ensures Pieces(lens[..i + 1], offset, n)
         == Pieces(lens[..i], offset, n) + PiecesIn(Sum(lens[..i]), Sum(lens[..i]) + lens[i], offset, n)
    ensures Pieces(lens[..i + 1], offset, n) <= Pieces(lens, offset, n)
  {
    assert lens[..i + 1][..i] == lens[..i];
    SumNext(lens, i);
    PiecesPrefix(lens, i + 1, offset, n);
  }

  lemma {:induction false} PiecesPrefix(lens: seq<nat>, i: nat, offset: nat, n: nat)
    requires i <= |lens|
    ensures Pieces(lens[..i], offset, n) <= Pieces(lens, offset, n)
    decreases |lens|
  {
    if i < |lens| {
      PiecesPrefix(lens[..|lens| - 1], i, offset, n);
      assert lens[..|lens| - 1][..i] == lens[..i];
    } else {
      TakeAll(lens);
    }
  }

  /** A segment begins inside the header. */
  ghost predicate HeaderSplit(lens: seq<nat>, offset: nat)
    requires offset + HEADER <= Sum(lens)
  {
    exists p :: 0 <= p < HEADER && PieceStart(lens, offset, p) > 0
  }

  lemma {:induction false} SegmentStartIs(lens: seq<nat>, pos: nat)
    requires pos < Sum(lens)
    ensures SegmentStart(lens, pos) <= pos
  {
    if pos >= Sum(lens[..|lens| - 1]) {
    } else {
      SegmentStartIs(lens[..|lens| - 1], pos);
    }
  }

  /** Every position of segment `i` starts there. */
  lemma {:induction false} SegmentStartAt(lens: seq<nat>, i: nat, pos: nat)
    requires i < |lens| && Sum(lens[..i]) <= pos < Sum(lens[..i]) + lens[i]
    ensures pos < Sum(lens) && SegmentStart(lens, pos) == Sum(lens[..i])
  {
    if i == |lens| - 1 {
    } else {
      var init := lens[..|lens| - 1];
      assert init[..i] == lens[..i];
      SegmentStartAt(init, i, pos);
    }
  }

  /** A later piece of the header is taken from behind the header. */
  lemma SourceBehind(lens: seq<nat>, offset: nat, p: nat)
    requires offset + p < Sum(lens) && p < HEADER && PieceStart(lens, offset, p) > 0
    ensures HEADER <= SourceOf(lens, offset, p) < HEADER * HEADER
  {
    SegmentStartIs(lens, offset + p);
    var r := PieceStart(lens, offset, p);
    assert 0 < r <= p && SourceOf(lens, offset, p) == 16 * r + p - r;
  }

  /** The memory of a packet from its header on. */
  function Memory(header: PacketHeader, buf: seq<Byte>): seq<Byte> {
    header.Bytes() + buf
  }

  /** The target with a packet of `n` bytes read to `offset`. */
  function Put(dst: seq<Byte>, lens: seq<nat>, offset: nat, mem: seq<Byte>, n: nat): (after: seq<Byte>)
    requires offset + n <= Sum(lens) == |dst|
    ensures |after| == |dst|
  {
    seq(|dst|, k requires 0 <= k < |dst| => PutAt(dst, lens, offset, mem, n, k))
  }

  function PutAt(dst: seq<Byte>, lens: seq<nat>, offset: nat, mem: seq<Byte>, n: nat, k: nat): Byte
    requires offset + n <= Sum(lens) == |dst| && k < |dst|
  {
    if offset <= k < offset + n then At(mem, SourceOf(lens, offset, k - offset)) else dst[k]
  }

  /** Into a target whose segments do not divide the header, header and contents arrive in one
      piece, and nothing else changes. */
  lemma Scattered(dst: seq<Byte>, lens: seq<nat>, offset: nat, header: PacketHeader, buf: seq<Byte>)
    requires header.size <= MAX_SIZE == |buf| && offset + HEADER + header.size <= Sum(lens) == |dst|
    requires !HeaderSplit(lens, offset)
    ensures Put(dst, lens, offset, Memory(header, buf), HEADER + header.size)
         == dst[..offset] + header.Bytes() + buf[..header.size] + dst[offset + HEADER + header.size..]
  {
    var after := Put(dst, lens, offset, Memory(header, buf), HEADER + header.size);
    var whole := dst[..offset] + header.Bytes() + buf[..header.size] + dst[offset + HEADER + header.size..];
    forall k | 0 <= k < |dst|
      ensures after[k] == whole[k]
    {
      if offset <= k < offset + HEADER {
        assert PieceStart(lens, offset, k - offset) == 0;
      }
    }
  }

  /** Gather, then scatter: after a successful write the packet is read as its header, what it held
      before, and the bytes of the segments written, one after the other. */
  lemma GatherThenScatter(dst: seq<Byte>, lens: seq<nat>, offset: nat, iov: seq<seq<Byte>>, copies: nat,
                          was: seq<Byte>, size: nat, header: PacketHeader, buf: seq<Byte>)
    requires Gathered(iov, size, copies) == Ok
    requires header.size == |was| + size <= MAX_SIZE == |buf| && buf[..header.size] == was + Concat(iov)
    requires offset + HEADER + header.size <= Sum(lens) == |dst| && !HeaderSplit(lens, offset)
    ensures |Concat(iov)| == size
    ensures Put(dst, lens, offset, Memory(header, buf), HEADER + header.size)
         == dst[..offset] + header.Bytes() + was + Concat(iov) + dst[offset + HEADER + |was| + |Concat(iov)|..]
  {
    GatheredOk(iov, size, copies);
    Scattered(dst, lens, offset, header, buf);
    Associates(dst[..offset] + header.Bytes(), was, Concat(iov));
  }

  function At(mem: seq<Byte>, i: nat): Byte {
    if i < |mem| then mem[i] else 0
  }

  /** Where the header is split, some packet is not read as it is. */
  lemma SplitSpoils(lens: seq<nat>, offset: nat, header: PacketHeader) returns (buf: seq<Byte>)
    requires header.size <= MAX_SIZE && offset + HEADER + header.size <= Sum(lens)
    requires HeaderSplit(lens, offset)
    ensures |buf| == MAX_SIZE && !Intact(lens, offset, HEADER + header.size, Memory(header, buf))
  {
    var p :| 0 <= p < HEADER && PieceStart(lens, offset, p) > 0;
    SourceBehind(lens, offset, p);
    buf := Spoiling(header.Bytes()[p]);
    var mem := Memory(header, buf);
    var i := SourceOf(lens, offset, p);
    assert mem[p] == header.Bytes()[p] && mem[i] == buf[i - HEADER];
    assert At(mem, i) != mem[p];
  }

  function Spoiling(b: Byte): (buf: seq<Byte>)
    ensures |buf| == MAX_SIZE && forall i :: 0 <= i < MAX_SIZE ==> buf[i] != b
  {
    seq(MAX_SIZE, _ => if b == 0 then 1 else 0)
  }

  lemma WholeIntact(lens: seq<nat>, offset: nat, header: PacketHeader, buf: seq<Byte>)
    requires header.size <= MAX_SIZE == |buf| && offset + HEADER + header.size <= Sum(lens)
    requires !HeaderSplit(lens, offset)
    ensures Intact(lens, offset, HEADER + header.size, Memory(header, buf))
  {
  }

  /** A packet is read correctly, whatever its data, if and only if no segment of the
      target begins inside its header. */
  lemma ReadCorrectExactly(lens: seq<nat>, offset: nat, header: PacketHeader)
    requires header.size <= MAX_SIZE && offset + HEADER + header.size <= Sum(lens)
    ensures (forall buf: seq<Byte> {:trigger Memory(header, buf)} ::
               |buf| == MAX_SIZE ==> Intact(lens, offset, HEADER + header.size, Memory(header, buf)))
            <==> !HeaderSplit(lens, offset)
  {
    if HeaderSplit(lens, offset) {
      var buf := SplitSpoils(lens, offset, header);
      assert !Intact(lens, offset, HEADER + header.size, Memory(header, buf));
    } else {
      forall buf: seq<Byte> | |buf| == MAX_SIZE
        ensures Intact(lens, offset, HEADER + header.size, Memory(header, buf))
      {
        WholeIntact(lens, offset, header, buf);
      }
    }
  }

  ghost predicate Intact(lens: seq<nat>, offset: nat, n: nat, mem: seq<Byte>)
    requires offset + n <= Sum(lens) && n <= |mem|
  {
    forall p :: 0 <= p < n ==> At(mem, SourceOf(lens, offset, p)) == mem[p]
  }

  /** `OnePacket_Read`: the first `n` bytes of a packet's memory go to `offset`. The first `copies`
      copies to user memory succeed, and `more` tells how many of these are left. */
  method ReadMemory(mem: seq<Byte>, n: nat, lens: seq<nat>, offset: nat, dst: array<Byte>, copies: nat)
    returns (status: Status, more: nat)
    requires HEADER <= n <= |mem| == HEADER + MAX_SIZE && dst.Length == Sum(lens) && offset + n <= Sum(lens)
    modifies dst
    ensures status == if Pieces(lens, offset, n) <= copies then Ok else Efault
    ensures status == Ok ==> more == copies - Pieces(lens, offset, n)
    ensures status == Ok ==> dst[..] == Put(old(dst[..]), lens, offset, mem, n)
    ensures forall k :: 0 <= k < dst.Length && !(offset <= k < offset + n) ==> dst[k] == old(dst[k])
  {
    var start, done := 0, 0;
    more := copies;
    for i := 0 to |lens|
      invariant start == Sum(lens[..i]) && done == Reach(start, offset, n)
      invariant more == copies - Pieces(lens[..i], offset, n)
      invariant forall p :: 0 <= p < done ==> dst[offset + p] == At(mem, SourceOf(lens, offset, p))
      invariant forall k :: 0 <= k < dst.Length && !(offset <= k < offset + done) ==> dst[k] == old(dst[k])
    {
      PiecesNext(lens, i, offset, n);
      var ok;
      ok, done, more := FillSegment(mem, n, lens, i, start, offset, done, dst, more);
      if !ok {
        return Efault, more;
      }
      start := start + lens[i];
    }
    TakeAll(lens);
    assert done == n;
    return Ok, more;
  }

  /** One turn of the loop: what of the packet falls into segment `i`, which begins at `start`. */
  method FillSegment(mem: seq<Byte>, n: nat, lens: seq<nat>, i: nat, start: nat, offset: nat, was: nat,
                     dst: array<Byte>, copies: nat)
    returns (ok: bool, done: nat, more: nat)
    requires n <= |mem| == HEADER + MAX_SIZE && dst.Length == Sum(lens) && offset + n <= Sum(lens)
    requires i < |lens| && start == Sum(lens[..i]) && was == Reach(start, offset, n)
    modifies dst
    ensures start + lens[i] == Sum(lens[..i + 1]) <= Sum(lens)
    ensures ok <==> PiecesIn(start, start + lens[i], offset, n) <= copies
    ensures ok ==> more == copies - PiecesIn(start, start + lens[i], offset, n)
    ensures ok ==> was <= done == Reach(start + lens[i], offset, n)
    ensures ok ==> forall p :: was <= p < done ==> dst[offset + p] == At(mem, SourceOf(lens, offset, p))
    ensures forall k :: 0 <= k < dst.Length && !(offset + was <= k < offset + Reach(start + lens[i], offset, n)) ==>
              dst[k] == old(dst[k])
  {
    SumNext(lens, i);
    ok, done, more := true, was, copies;
    var left := n - was;
    if start + lens[i] > offset + was && left > 0 {
      var copy := lens[i] - (offset + was - start);
      if copy > left {
        copy := left;
      }
      ok, more := CopyPiece(mem, n, lens, i, offset, was, copy, dst, more);
      done := was + copy;
    }
  }

  /** What goes into one segment: a part of the header, of the data, or of both. */
  method CopyPiece(mem: seq<Byte>, size: nat, lens: seq<nat>, i: nat, offset: nat, done: nat, copy: nat,
                   dst: array<Byte>, copies: nat)
    returns (ok: bool, more: nat)
    requires size <= |mem| == HEADER + MAX_SIZE && dst.Length == Sum(lens)
    requires i < |lens| && copy > 0 && done + copy <= size
    requires Sum(lens[..i]) <= offset + done && offset + done + copy <= Sum(lens[..i]) + lens[i] <= Sum(lens)
    requires done > 0 ==> Sum(lens[..i]) == offset + done
    requires done + copy < size ==> offset + done + copy == Sum(lens[..i]) + lens[i]
    modifies dst
    ensures var pieces := PiecesIn(Sum(lens[..i]), Sum(lens[..i]) + lens[i], offset, size);
            && (ok <==> pieces <= copies)
            && (ok ==> more == copies - pieces)
    ensures ok ==> forall p :: done <= p < done + copy ==>
                     dst[offset + p] == At(mem, SourceOf(lens, offset, p))
    ensures forall k :: 0 <= k < dst.Length && !(offset + done <= k < offset + done + copy) ==> dst[k] == old(dst[k])
  {
    more := copies;
    forall p | done <= p < done + copy
      ensures PieceStart(lens, offset, p) == done
    {
      SegmentStartAt(lens, i, offset + p);
    }
    var n: nat := 0;
    if done < HEADER {
      n := if HEADER - done > copy then copy else HEADER - done;
      if more == 0 {
        return false, more;
      }
      more := more - 1;
      CopyOut(mem, dst, offset + done, HEADER * done, n);
    }
    if copy > n {
      if more == 0 {
        return false, more;
      }
      more := more - 1;
      CopyOut(mem, dst, offset + done + n, done + n, copy - n);
    }
    return true, more;
  }

  /** Copies `n` bytes of the packet's memory, from `from` on. */
  method CopyOut(mem: seq<Byte>, dst: array<Byte>, at: nat, from: nat, n: nat)
    requires at + n <= dst.Length && from + n <= |mem|
    modifies dst
    ensures forall k :: 0 <= k < dst.Length ==>
              dst[k] == if at <= k < at + n then At(mem, from + k - at) else old(dst[k])
  {
    for j := 0 to n
      invariant forall k :: 0 <= k < dst.Length ==>
                  dst[k] == if at <= k < at + j then At(mem, from + k - at) else old(dst[k])
    {
      dst[at + j] := mem[from + j];
    }
  }

  class OnePacket {
    var header: PacketHeader
    const buf: array<Byte>

    constructor (queueId: nat)
      ensures Valid() && fresh(buf) && header == PacketHeader(queueId, 0, 0, 0)
    {
      header := PacketHeader(queueId, 0, 0, 0);
      buf := new Byte[MAX_SIZE](_ => 0);
    }

    ghost predicate Valid()
      reads this
    {
      buf.Length == MAX_SIZE && header.size <= MAX_SIZE
    }

    ghost function Contents(): seq<Byte>
      requires Valid()
      reads this, buf
    {
      buf[..header.size]
    }

    method CopyIn(at: nat, data: seq<Byte>)
      requires at + |data| <= buf.Length
      modifies buf
      ensures buf[..at + |data|] == old(buf[..at]) + data
    {
      for i := 0 to |data|
        invariant buf[..at] == old(buf[..at])
        invariant forall j :: 0 <= j < i ==> buf[at + j] == data[j]
      {
        buf[at + i] := data[i];
      }
    }

    /** The destination must have room, which `OneApp_Receive` sees to. */
    method Read(lens: seq<nat>, offset: nat, dst: array<Byte>, copies: nat) returns (status: Status)
      requires Valid() && dst != buf && dst.Length == Sum(lens) && offset + HEADER + header.size <= Sum(lens)
      modifies dst
      ensures status == if Pieces(lens, offset, HEADER + header.size) <= copies then Ok else Efault
      ensures status == Ok ==> dst[..] == Put(old(dst[..]), lens, offset, Memory(header, buf[..]), HEADER + header.size)
      ensures forall k :: 0 <= k < dst.Length && !(offset <= k < offset + HEADER + header.size) ==>
              dst[k] == old(dst[k])
    {
      var more;
      status, more := ReadMemory(Memory(header, buf[..]), HEADER + header.size, lens, offset, dst, copies);
    }

    /** A failed write leaves the packet's contents as they were. `held` tells whether the
        assertions reached held; a caller can make both of them fail. */
    method Write(h: PacketHeader, iov: seq<seq<Byte>>, copies: nat) returns (status: Status, held: bool)
      requires Valid() && header.queueId == h.queueId
      modifies this, buf
      ensures Valid()
      ensures status == (if old(header).size != 0
              && (old(header).flags % 2 == COMPRESSED || old(header).flags != h.flags) then Eio
                         else if old(header).size + h.size > MAX_SIZE then E2big
                         else Gathered(iov, h.size, copies))
      ensures held <==>
                && (old(header).size == 0 || old(header).flags % 2 != COMPRESSED)
                && (status == Eio || status == E2big || h.size == h.uncompressed || h.flags % 2 == COMPRESSED)
      ensures status != Ok ==> header == old(header) && Contents() == old(Contents())
      ensures status == Ok ==>
                && header == PacketHeader(h.queueId, h.flags, old(header).size + h.size,
                    old(header).uncompressed + h.uncompressed)
                && Contents() == old(Contents()) + Concat(iov)
    {
      if header.size != 0 {
        if header.flags % 2 == COMPRESSED {
          return Eio, false;
        }
        if header.flags != h.flags {
          return Eio, true;
        }
      }
      if header.size + h.size > MAX_SIZE {
        return E2big, true;
      }
      held := h.size == h.uncompressed || h.flags % 2 == COMPRESSED;
      status := Gather(iov, h.size, copies);
      if status == Ok {
        GatheredOk(iov, h.size, copies);
        header := PacketHeader(header.queueId, h.flags, header.size + h.size, header.uncompressed + h.uncompressed);
      }
    }

    /** The loop over the segments. */
    method Gather(iov: seq<seq<Byte>>, size: nat, copies: nat) returns (status: Status)
      requires Valid() && header.size + size <= MAX_SIZE
      modifies buf
      ensures status == Gathered(iov, size, copies)
      ensures Contents() == old(Contents())
      ensures status == Ok ==> |Concat(iov)| == size && buf[..header.size + size] == old(Contents()) + Concat(iov)
    {
      var len, offset := size, header.size;
      for i := 0 to |iov|
        invariant 0 <= len <= size && offset == header.size + |Concat(iov[..i])|
                  && len == size - |Concat(iov[..i])| && i <= copies
        invariant Gathered(iov, size, copies) == Gathered(iov[i..], len, copies - i)
        invariant buf[..offset] == old(Contents()) + Concat(iov[..i])
      {
        ConcatNext(iov, i);
        assert iov[i..][1..] == iov[i + 1..];
        if |iov[i]| > len {
          Kept(buf[..offset], old(Contents()), buf[..header.size]);
          return Einval;
        }
        if i == copies {
          Kept(buf[..offset], old(Contents()), buf[..header.size]);
          return Efault;
        }
        CopyIn(offset, iov[i]);
        Associates(old(Contents()), Concat(iov[..i]), iov[i]);
        offset, len := offset + |iov[i]|, len - |iov[i]|;
      }
      Kept(buf[..offset], old(Contents()), buf[..header.size]);
      TakeAll(iov);
      return if len > 0 then Einval else Ok;
    }
  }

  lemma Kept(long: seq<Byte>, before: seq<Byte>, short: seq<Byte>)
    requires before <= long && short <= long && |short| == |before|
    ensures short == before
  {
  }

  lemma SumNext(lens: seq<nat>, i: nat)
    requires i < |lens|
    ensures Sum(lens[..i + 1]) == Sum(lens[..i]) + lens[i] <= Sum(lens)
  {
    assert lens[..i + 1][..i] == lens[..i];
    SumPrefix(lens, i + 1);
  }

  lemma {:induction false} SumPrefix(lens: seq<nat>, i: nat)
    requires i <= |lens|
    ensures Sum(lens[..i]) <= Sum(lens)
    decreases |lens|
  {
    if i < |lens| {
      SumPrefix(lens[..|lens| - 1], i);
      assert lens[..|lens| - 1][..i] == lens[..i];
    } else {
      TakeAll(lens);
    }
  }

  lemma ConcatNext(iov: seq<seq<Byte>>, i: nat)
    requires i < |iov|
    ensures Concat(iov[..i + 1]) == Concat(iov[..i]) + iov[i]
  {
    assert iov[..i + 1][..i] == iov[..i];
  }
}
