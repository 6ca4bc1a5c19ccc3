/** Receiving from several queues at once (one/app.c). */
module OneApps {
  import opened Errno
  import opened Messages
  import opened Sequences
  import opened IdList
  import opened OnePackets

  const MAX_WAITING := 100

  /** A packet as it lies in a queue; nothing writes to it any more. */
  datatype Stored = Stored(header: PacketHeader, buf: seq<Byte>) {
    predicate Proper() {
      header.size <= MAX_SIZE == |buf|
    }

    function Length(): nat {
      HEADER + header.size
    }
  }

  datatype Target = Target(packets: seq<Stored>, wakeup: bool)

  function SumLengths(ps: seq<Stored>): nat {
    if ps == [] then 0 else SumLengths(ps[..|ps| - 1]) + ps[|ps| - 1].Length()
  }

  function LengthAll(ps: seq<Stored>): nat {
    SumLengths(ps)
  }

  /** The target buffer with packets read to it one after the other. */
  function Filled(dst: seq<Byte>, lens: seq<nat>, ps: seq<Stored>): (after: seq<Byte>)
    requires LengthAll(ps) <= Sum(lens) == |dst|
    ensures |after| == |dst|
  {
    FilledBy(dst, lens, ps)
  }

  function FilledBy(dst: seq<Byte>, lens: seq<nat>, ps: seq<Stored>): (after: seq<Byte>)
    requires LengthAll(ps) <= Sum(lens) == |dst|
    ensures |after| == |dst|
  {
    if ps == [] then dst
    else
      var init, p := ps[..|ps| - 1], ps[|ps| - 1];
      Read(FilledBy(dst, lens, init), lens, LengthAll(init), p)
  }

  function Read(dst: seq<Byte>, lens: seq<nat>, offset: nat, p: Stored): (after: seq<Byte>)
    requires offset + p.Length() <= Sum(lens) == |dst|
    ensures |after| == |dst|
  {
    Put(dst, lens, offset, Memory(p.header, p.buf), p.Length())
  }

  /** Packets as they should arrive: each header followed by its data, laid end to end. */
  function Laid(ps: seq<Stored>): seq<Byte> {
    if ps == [] then []
    else
      var p := ps[|ps| - 1];
      Laid(ps[..|ps| - 1]) + p.header.Bytes() + (if p.Proper() then p.buf[..p.header.size] else [])
  }

  ghost predicate AllProper(ps: seq<Stored>) {
    forall i :: 0 <= i < |ps| ==> ps[i].Proper()
  }

  /** No segment of the target begins inside the header of a packet. */
  ghost predicate HeadersWhole(lens: seq<nat>, ps: seq<Stored>)
    requires LengthAll(ps) <= Sum(lens)
    decreases |ps|
  {
    ps == [] ||
      var init := ps[..|ps| - 1];
      && LengthAll(init) + HEADER <= Sum(lens)
      && HeadersWhole(lens, init) && !HeaderSplit(lens, LengthAll(init))
  }

  /** How many copies reading a packet to `offset` takes. */
  function Needs(lens: seq<nat>, offset: nat, p: Stored): nat {
    Pieces(lens, offset, p.Length())
  }

  /** How many copies reading the packets one after the other takes. */
  function PiecesAll(lens: seq<nat>, ps: seq<Stored>): nat {
    SumPieces(lens, ps)
  }

  function SumPieces(lens: seq<nat>, ps: seq<Stored>): nat {
    if ps == [] then 0
    else
      var init := ps[..|ps| - 1];
      SumPieces(lens, init) + Needs(lens, LengthAll(init), ps[|ps| - 1])
  }

  lemma PiecesAllLast(lens: seq<nat>, ps: seq<Stored>, p: Stored)
    ensures PiecesAll(lens, ps + [p]) == PiecesAll(lens, ps) + Needs(lens, LengthAll(ps), p)
  {
    LastAppended(ps, p);
  }

  /** There are no more copies than bytes. */
  lemma {:induction false} PiecesAllBounded(lens: seq<nat>, ps: seq<Stored>)
    ensures PiecesAll(lens, ps) <= LengthAll(ps)
  {
    if ps == [] {
    } else {
      var init, p := ps[..|ps| - 1], ps[|ps| - 1];
      PiecesAllBounded(lens, init);
      PiecesBounded(lens, LengthAll(init), p.Length());
    }
  }

  /** Packets none of whose headers is split lie in the buffer whole: header and data of each, in
      order and without gaps, and behind them what was there before. */
  lemma {:induction false} FilledWhole(dst: seq<Byte>, lens: seq<nat>, ps: seq<Stored>)
    requires LengthAll(ps) <= Sum(lens) == |dst| && AllProper(ps) && HeadersWhole(lens, ps)
    ensures |Laid(ps)| == LengthAll(ps)
    ensures Filled(dst, lens, ps) == Laid(ps) + dst[LengthAll(ps)..]
  {
    if ps == [] {
    } else {
      var init, p := ps[..|ps| - 1], ps[|ps| - 1];
      assert AllProper(init) && p.Proper();
      FilledWhole(dst, lens, init);
      Scattered(Filled(dst, lens, init), lens, LengthAll(init), p.header, p.buf);
      LaidNext(dst, Filled(dst, lens, init), Laid(init), p);
    }
  }

  lemma LaidNext(dst: seq<Byte>, before: seq<Byte>, laid: seq<Byte>, p: Stored)
    requires p.Proper() && |laid| + p.Length() <= |dst| && before == laid + dst[|laid|..]
    ensures before[..|laid|] + p.header.Bytes() + p.buf[..p.header.size] + before[|laid| + p.Length()..]
         == laid + p.header.Bytes() + p.buf[..p.header.size] + dst[|laid| + p.Length()..]
  {
    assert before[..|laid|] == laid;
    assert before[|laid| + p.Length()..] == dst[|laid| + p.Length()..];
  }

  /** The packets for one queue, in order. */
  function For(ps: seq<Stored>, id: int): seq<Stored> {
    if ps == [] then []
    else For(ps[..|ps| - 1], id) + (if ps[|ps| - 1].header.queueId == id then [ps[|ps| - 1]] else [])
  }

  ghost predicate TargetInv(t: Target, id: int) {
    forall i :: 0 <= i < |t.packets| ==> t.packets[i].Proper() && t.packets[i].header.queueId == id
  }

  /** A target that has packets, or is to be woken up, is linked for receiving. */
  ghost predicate Inv(targets: map<int, Target>, recv: seq<int>) {
    && (forall id {:trigger TargetInv(targets[id], id)} :: id in targets ==> TargetInv(targets[id], id))
    && (forall i :: 0 <= i < |recv| ==> recv[i] in targets)
    && (forall i, j :: 0 <= i < j < |recv| ==> recv[i] != recv[j])
    && (forall id {:trigger Names(recv, id)} ::
          id in targets && (targets[id].packets != [] || targets[id].wakeup) ==> Names(recv, id))
  }

  lemma AppendLast(ps: seq<Stored>, p: Stored)
    ensures LengthAll(ps + [p]) == LengthAll(ps) + p.Length()
  {
    LastAppended(ps, p);
  }

  lemma FilledLast(dst: seq<Byte>, lens: seq<nat>, ps: seq<Stored>, p: Stored)
    requires LengthAll(ps) + p.Length() <= Sum(lens) == |dst|
    ensures LengthAll(ps + [p]) == LengthAll(ps) + p.Length()
    ensures Filled(dst, lens, ps + [p]) == Read(Filled(dst, lens, ps), lens, LengthAll(ps), p)
  {
    LastAppended(ps, p);
  }

  lemma {:induction false} ForAppend(a: seq<Stored>, b: seq<Stored>, id: int)
    ensures For(a + b, id) == For(a, id) + For(b, id)
  {
    if b == [] {
      assert a + b == a;
    } else {
      var c, p := b[..|b| - 1], b[|b| - 1];
      ForAppend(a, c, id);
      assert (a + b)[..|a + b| - 1] == a + c;
    }
  }

  lemma {:induction false} ForOne(ps: seq<Stored>, from: int, id: int)
    requires forall i :: 0 <= i < |ps| ==> ps[i].header.queueId == from
    ensures For(ps, id) == if id == from then ps else []
  {
    if ps == [] {
    } else {
      ForOne(ps[..|ps| - 1], from, id);
    }
  }

  class OneApp {
    var targets: map<int, Target>
    var recv: seq<int>

    constructor ()
      ensures Valid() && targets == map[]
    {
      targets, recv := map[], [];
    }

    ghost predicate Valid()
      reads this
    {
      Inv(targets, recv)
    }

    method CreateTarget(id: int)
      requires Valid() && id !in targets
      modifies this`targets
      ensures Valid() && targets == old(targets)[id := Target([], false)]
    {
      targets := targets[id := Target([], false)];
    }

    method DestroyTarget(id: int)
      requires Valid() && id in targets
      modifies this
      ensures Valid() && targets == old(targets) - {id} && recv == Remove(old(recv), id)
    {
      Unlinked(targets, recv, id);
      recv := Unlink(recv, id);
      targets := targets - {id};
    }

    /** Puts the target at the end of those to receive from, unless it is there. */
    method Link(id: int)
      modifies this`recv
      ensures recv == if id in old(recv) then old(recv) else old(recv) + [id]
    {
      if id !in recv {
        recv := recv + [id];
      }
    }

    /** `Eagain` stands for waiting until something has been received. */
    method Dispatch(id: int, h: PacketHeader, iov: seq<seq<Byte>>, copies: nat, oom: bool)
      returns (status: Status, held: bool, ghost stored: Stored)
      requires Valid() && id in targets && h.queueId == id
      modifies this
      ensures Valid()
      ensures status == (if |old(targets)[id].packets| > MAX_WAITING then Eagain
                         else if oom then Enomem
                         else if h.size > MAX_SIZE then E2big
                         else Gathered(iov, h.size, copies))
      ensures held <==> status == Eagain || status == Enomem || status == E2big
                        || h.size == h.uncompressed || h.flags % 2 == COMPRESSED
      ensures status != Ok ==> targets == old(targets) && recv == old(recv)
      ensures status == Ok ==>
                && targets == old(targets)[id := Target(old(targets)[id].packets + [stored], old(targets)[id].wakeup)]
                && stored.Proper() && stored.header == PacketHeader(id, h.flags, h.size, h.uncompressed)
                && stored.buf[..h.size] == Concat(iov)
                && recv == (if id in old(recv) then old(recv) else old(recv) + [id])
    {
      if |targets[id].packets| > MAX_WAITING {
        return Eagain, true, Stored(h, []);
      }
      if oom {
        return Enomem, true, Stored(h, []);
      }
      var p := new OnePacket(id);
      status, held := p.Write(h, iov, copies);
      stored := Stored(p.header, p.buf[..]);
      if status != Ok {
        return;
      }
      Enqueued(targets, recv, id, stored);
      targets := targets[id := Target(targets[id].packets + [Stored(p.header, p.buf[..])], targets[id].wakeup)];
      Link(id);
    }

    method WakeUp(id: int)
      requires Valid() && id in targets
      modifies this
      ensures Valid()
      ensures targets == old(targets)[id := Target(old(targets)[id].packets, true)]
      ensures recv == if id in old(recv) then old(recv) else old(recv) + [id]
    {
      assert TargetInv(targets[id], id);
      LinkedInv(targets, recv, id, Target(targets[id].packets, true));
      targets := targets[id := targets[id].(wakeup := true)];
      Link(id);
    }

    /** Reads the first packet of a target, and takes it off. */
    method ReceiveOne(id: int, lens: seq<nat>, offset: nat, dst: array<Byte>, copies: nat,
                      ghost dst0: seq<Byte>, ghost done: seq<Stored>)
      returns (status: Status, more: nat)
      requires Valid() && id in targets && targets[id].packets != []
      requires Filling(dst[..], dst0, lens, done) && LengthAll(done) == offset
      requires targets[id].packets[0].Length() + offset <= Sum(lens)
      modifies this`targets, dst
      ensures Valid()
      ensures status == if Needs(lens, offset, old(targets)[id].packets[0]) <= copies then Ok else Efault
      ensures status != Ok ==> targets == old(targets) && FilledUpTo(dst[..], dst0, lens, done)
      ensures status == Ok ==>
                && more == copies - Needs(lens, offset, old(targets)[id].packets[0])
                && targets == old(targets)[id := Target(old(targets)[id].packets[1..], old(targets)[id].wakeup)]
                && Filling(dst[..], dst0, lens, done + [old(targets)[id].packets[0]])
    {
      assert TargetInv(targets[id], id);
      var p := targets[id].packets[0];
      FillingNext(dst[..], dst0, lens, done, p);
      ghost var full := dst[..];
      status, more := ReadMemory(Memory(p.header, p.buf), p.Length(), lens, offset, dst, copies);
      if status != Ok {
        StillFilled(full, dst[..], dst0, lens, done);
        return;
      }
      Shortened(targets, recv, id);
      targets := targets[id := targets[id].(packets := targets[id].packets[1..])];
    }

    /** `receive_from`: packets are read to the buffer, which already holds those of `before`, as
        long as they fit; the target is unlinked when none are left. */
    method ReceiveFrom(id: int, lens: seq<nat>, offset: nat, length: nat, dst: array<Byte>, copies: nat,
                       ghost dst0: seq<Byte>, ghost before: seq<Stored>)
      returns (status: Status, received: nat, more: nat, ghost taken: seq<Stored>)
      requires Valid() && id in targets && !targets[id].wakeup
      requires Filling(dst[..], dst0, lens, before) && LengthAll(before) == offset && offset + length == Sum(lens)
      modifies this, dst
      ensures Valid()
      ensures Shorter(old(targets), targets, id, taken)
      ensures Tally(lens, before, taken, offset, received, copies, more) && received <= length
      ensures Got(status, dst[..], dst0, lens, before + taken)
      ensures recv == if status == Ok then Remove(old(recv), id) else old(recv)
      ensures (status == Ok || status == E2big || status == Efault)
      ensures status == Refusal(targets[id].packets, lens, offset + received, length - received, more)
    {
      status, received, more, taken := Drain(id, lens, offset, length, dst, copies, dst0, before);
      if status == Ok {
        UnlinkTarget(id);
      }
    }

    /** The loop over the packets. */
    method Drain(id: int, lens: seq<nat>, offset: nat, length: nat, dst: array<Byte>, copies: nat,
                 ghost dst0: seq<Byte>, ghost before: seq<Stored>)
      returns (status: Status, received: nat, more: nat, ghost taken: seq<Stored>)
      requires Valid() && id in targets
      requires Filling(dst[..], dst0, lens, before) && LengthAll(before) == offset && offset + length == Sum(lens)
      modifies this`targets, dst
      ensures Valid()
      ensures Drained(old(targets), targets, id, dst[..], dst0, lens, before, taken, offset, received, copies, more,
                      length, status)
    {
      received, more, taken := 0, copies, [];
      ghost var was := targets;
      assert before + [] == before && [] + targets[id].packets == targets[id].packets;
      while targets[id].packets != []
        invariant Valid() && received <= length
        invariant Reading(was, targets, id, dst[..], dst0, lens, before, taken, offset, received, copies, more)
        decreases |targets[id].packets|
      {
        ghost var piece;
        var done, n, left;
        done, status, n, left, piece := DrainTurn(id, lens, offset, received, length, dst, copies, more,
                                                  dst0, was, before, taken);
        if done {
          return;
        }
        received, more, taken := received + n, left, taken + piece;
      }
      status := Ok;
    }

    /** The body of the loop: it is done when the packet does not fit or a copy fails. */
    method DrainTurn(id: int, lens: seq<nat>, offset: nat, received: nat, length: nat, dst: array<Byte>,
                     ghost copies: nat, more: nat, ghost dst0: seq<Byte>, ghost was: map<int, Target>,
                     ghost before: seq<Stored>, ghost taken: seq<Stored>)
      returns (done: bool, status: Status, n: nat, left: nat, ghost piece: seq<Stored>)
      requires Valid() && id in targets && targets[id].packets != [] && offset + length == Sum(lens)
      requires Reading(was, targets, id, dst[..], dst0, lens, before, taken, offset, received, copies, more)
      requires received <= length
      modifies this`targets, dst
      ensures Valid()
      ensures done ==> Drained(was, targets, id, dst[..], dst0, lens, before, taken, offset, received, copies, more,
                               length, status)
      ensures !done ==>
                && received + n <= length && id in targets && |targets[id].packets| < |old(targets)[id].packets|
                && Reading(was, targets, id, dst[..], dst0, lens, before, taken + piece,
                           offset, received + n, copies, left)
    {
      ghost var mid, p := targets, targets[id].packets[0];
      piece := [p];
      n := targets[id].packets[0].Length();
      if n > length - received {
        DrainedAt(was, targets, id, dst[..], dst0, lens, before, taken, offset, received, copies, more, length, E2big);
        return true, E2big, n, more, piece;
      }
      status, left := ReceiveOne(id, lens, offset + received, dst, more, dst0, before + taken);
      done := status != Ok;
      if status == Ok {
        ReadingNext(was, mid, targets, id, dst[..], dst0, lens, before, taken, offset, received, copies, more, p);
      } else {
        DrainedAt(was, targets, id, dst[..], dst0, lens, before, taken, offset, received, copies, more, length, Efault);
      }
    }

    method UnlinkTarget(id: int)
      requires Valid() && id in targets && targets[id] == Target([], false)
      modifies this`recv
      ensures Valid() && recv == Remove(old(recv), id)
    {
      UnlinkedIdle(targets, recv, id);
      recv := Unlink(recv, id);
    }

    /** Checks and clears the wake-up flag. */
    method ClearWakeUp(id: int) returns (woken: bool)
      requires Valid() && id in targets
      modifies this`targets
      ensures Valid() && woken == old(targets)[id].wakeup
      ensures targets == old(targets)[id := Target(old(targets)[id].packets, false)]
    {
      assert TargetInv(targets[id], id);
      woken := targets[id].wakeup;
      targets := targets[id := targets[id].(wakeup := false)];
    }

    /** One turn of `OneApp_Receive`'s loop, in which the first `copies` copies to user memory
        succeed. `ret` is how it ends; what the caller sees is success if anything was received.
        `Eagain` stands for waiting before the next turn. The turn got to the first `seen` targets
        that were linked. */
    method Receive(ids: seq<int>, lens: seq<nat>, dst: array<Byte>, copies: nat)
      returns (status: Status, received: nat, woken: bool, ret: Status, ghost taken: seq<Stored>, ghost seen: nat)
      requires Valid() && dst.Length == Sum(lens)
      requires forall i, j :: 0 <= i < j < |ids| ==> ids[i] != ids[j]
      modifies this, dst
      ensures Valid()
      ensures received <= Sum(lens) && PiecesAll(lens, taken) <= copies
      ensures Going(Turn(old(targets), ids, lens, old(dst[..]), copies), old(recv), seen, targets, ret, dst[..], taken,
                    received, Sum(lens) - received, copies - PiecesAll(lens, taken))
      ensures Standing(Turn(old(targets), ids, lens, old(dst[..]), copies), old(recv), seen, targets, ret, woken, recv)
      ensures ret == Ok ==> forall id :: id in ids && id in old(recv) ==>
              id in targets && targets[id] == Target([], false)
      ensures ret == Ok ==> (woken <==> exists id :: id in ids && id in old(targets) && old(targets)[id].wakeup)
      ensures (ret == Ok || ret == E2big || ret == Efault) && (copies >= Sum(lens) ==> ret != Efault)
      ensures HeadersWhole(lens, taken) ==>
                && dst[..received] == Laid(taken)
                && (ret != Efault ==> dst[..] == Laid(taken) + old(dst[..])[received..])
      ensures status == if received > 0 then Ok else if ret == Ok && !woken then Eagain else ret
    {
      ghost var order, turn := recv, Turn(targets, ids, lens, dst[..], copies);
      var length, more, k;
      received, length, more, woken, ret, k, taken := ReceiveAll(ids, lens, dst, copies);
      seen := k;
      Ending(turn, order, k, targets, ret, dst[..], taken, received, length, more);
      WokenExactly(turn, order, k, targets, woken);
      status := if received > 0 then Ok else if ret == Ok && !woken then Eagain else ret;
    }

    /** The loop over the targets that are linked; it stops before the `k`-th. */
    method ReceiveAll(ids: seq<int>, lens: seq<nat>, dst: array<Byte>, copies: nat)
      returns (received: nat, length: nat, more: nat, woken: bool, ret: Status, k: nat, ghost taken: seq<Stored>)
      requires Valid() && dst.Length == Sum(lens)
      modifies this, dst
      ensures Valid() && (k == |old(recv)| || ret != Ok)
      ensures Going(Turn(old(targets), ids, lens, old(dst[..]), copies), old(recv), k, targets, ret, dst[..], taken,
                    received, length, more)
      ensures Standing(Turn(old(targets), ids, lens, old(dst[..]), copies), old(recv), k, targets, ret, woken, recv)
    {
      var order := recv;
      received, length, more, woken, ret, k, taken := 0, Sum(lens), copies, false, Ok, 0, [];
      ghost var turn := Turn(targets, ids, lens, dst[..], copies);
      Beginning(turn, recv);
      while k < |order| && ret == Ok
        invariant Valid()
        invariant Going(turn, order, k, targets, ret, dst[..], taken, received, length, more)
        invariant Standing(turn, order, k, targets, ret, woken, recv)
        decreases |order| - k, ret == Ok
      {
        ghost var mid, linked := targets, recv;
        var w;
        w, ret, received, length, more, taken := ReceiveAt(order, k, ids, lens, received, length, dst, more,
                                                           turn, taken);
        StandingNext(turn, order, k, mid, targets, woken, w, linked, recv, ret);
        woken, k := woken || w, k + 1;
      }
    }

    /** The body of the loop, for the `k`-th linked target. */
    method ReceiveAt(order: seq<int>, k: nat, ids: seq<int>, lens: seq<nat>, offset: nat, room: nat, dst: array<Byte>,
                     copies: nat, ghost turn: Turn, ghost done: seq<Stored>)
      returns (woken: bool, ret: Status, received: nat, length: nat, more: nat, ghost taken: seq<Stored>)
      requires Valid() && k < |order| && ids == turn.ids && lens == turn.lens
      requires Distinct(order)
      requires Going(turn, order, k, targets, Ok, dst[..], done, offset, room, copies)
      modifies this, dst
      ensures Valid()
      ensures Going(turn, order, k + 1, targets, ret, dst[..], taken, received, length, more)
      ensures FlagsNext(old(targets), targets, order[k], order[k] in ids, woken)
      ensures recv == if ret == Ok && order[k] in ids then Remove(old(recv), order[k]) else old(recv)
    {
      if order[k] !in ids {
        Skipped(turn, order, k, targets, dst[..], done, offset, room, copies);
        return false, Ok, offset, room, copies, done;
      }
      ghost var mid := targets;
      var rec;
      woken, ret, rec, more, taken := ReceiveTarget(order[k], ids, lens, offset, room, dst, copies, turn, done);
      received, length, taken := offset + rec, room - rec, done + taken;
      Asked(turn, order, k, mid, targets, ret, dst[..], taken, received, length, more);
    }

    /** What is done for one matching target. */
    method ReceiveTarget(id: int, ids: seq<int>, lens: seq<nat>, offset: nat, room: nat, dst: array<Byte>, copies: nat,
                         ghost turn: Turn, ghost done: seq<Stored>)
      returns (woken: bool, ret: Status, received: nat, more: nat, ghost taken: seq<Stored>)
      requires Valid() && id in targets && id in ids && ids == turn.ids && lens == turn.lens
      requires Progress(turn, targets, Ok, dst[..], done, offset, room, copies)
      modifies this, dst
      ensures Valid() && (ret == Ok || ret == E2big || ret == Efault) && received <= room
      ensures Progress(turn, targets, ret, dst[..], done + taken, offset + received, room - received, more)
      ensures OnlyOne(old(targets), targets, id, ret)
      ensures ret == Refusal(targets[id].packets, lens, offset + received, room - received, more)
      ensures FlagsNext(old(targets), targets, id, true, woken)
      ensures recv == if ret == Ok then Remove(old(recv), id) else old(recv)
    {
      woken := ClearWakeUp(id);
      ghost var mid := targets;
      ret, received, more, taken := ReceiveFrom(id, lens, offset, room, dst, copies, turn.dst0, done);
      ProgressNext(turn, old(targets), mid, targets, id, old(dst[..]), dst[..], done, taken, ret,
                   offset, received, room, copies, more);
    }
  }

  /** What a turn of `OneApp_Receive`'s loop starts from. */
  datatype Turn = Turn(was: map<int, Target>, ids: seq<int>, lens: seq<nat>, dst0: seq<Byte>, copies: nat)

  /** The first `k` targets linked, as far as they were asked for, have nothing left. */
  ghost predicate Emptied(targets: map<int, Target>, ids: seq<int>, order: seq<int>, k: nat)
    requires k <= |order|
  {
    forall j :: 0 <= j < k && order[j] in ids ==> order[j] in targets && targets[order[j]] == Target([], false)
  }

  ghost predicate Distinct(order: seq<int>) {
    forall i, j :: 0 <= i < j < |order| ==> order[i] != order[j]
  }

  ghost predicate Known(order: seq<int>, targets: map<int, Target>) {
    forall j :: 0 <= j < |order| ==> order[j] in targets
  }

  /** What one target's turn does to the wake-up flags: its own is found and cleared, if it was asked for. */
  ghost predicate FlagsNext(was: map<int, Target>, now: map<int, Target>, id: int, asked: bool, woken: bool) {
    && id in was && (woken <==> asked && was[id].wakeup)
    && now.Keys == was.Keys
    && forall q {:trigger Flag(now, q)} :: q in was ==> Flag(now, q) == (Flag(was, q) && !(asked && q == id))
  }

  ghost predicate Flag(targets: map<int, Target>, q: int) {
    q in targets && targets[q].wakeup
  }

  /** One of the first `k` targets linked is this one, and it was asked for. */
  ghost predicate Among(turn: Turn, order: seq<int>, k: nat, q: int)
    requires k <= |order|
  {
    q in turn.ids && exists j :: 0 <= j < k && order[j] == q
  }

  /** After the first `k` targets linked: the flags of those of them that were asked for are cleared,
      no others; and `woken` tells whether there was one. */
  ghost predicate Seen(turn: Turn, order: seq<int>, k: nat, now: map<int, Target>, woken: bool) {
    && k <= |order| && Distinct(order)
    && (forall q {:trigger Flag(now, q)} :: q in turn.was ==>
          Flag(now, q) == (Flag(turn.was, q) && !Among(turn, order, k, q)))
    && (woken <==> exists q {:trigger Flag(turn.was, q)} :: Flag(turn.was, q) && Among(turn, order, k, q))
  }

  lemma SeenNext(turn: Turn, order: seq<int>, k: nat, mid: map<int, Target>, now: map<int, Target>,
                 woken: bool, w: bool)
    requires k < |order| && Seen(turn, order, k, mid, woken) && mid.Keys == turn.was.Keys
    requires FlagsNext(mid, now, order[k], order[k] in turn.ids, w)
    ensures Seen(turn, order, k + 1, now, woken || w)
  {
    forall q
      ensures Among(turn, order, k + 1, q) <==> Among(turn, order, k, q) || (q == order[k] && q in turn.ids)
    {
      if Among(turn, order, k, q) || (q == order[k] && q in turn.ids) {
        var j :| 0 <= j < k + 1 && order[j] == q;
      }
    }
    assert !Among(turn, order, k, order[k]);
    assert Flag(mid, order[k]) == Flag(turn.was, order[k]);
    if w {
      assert Flag(turn.was, order[k]) && Among(turn, order, k + 1, order[k]);
    }
  }

  /** The flags, and the list of what is linked, when the loop has got to the first `k` targets. */
  ghost predicate Standing(turn: Turn, order: seq<int>, k: nat, now: map<int, Target>, ret: Status, woken: bool,
                           linked: seq<int>) {
    && Distinct(order) && Seen(turn, order, k, now, woken) && (ret != Ok ==> k > 0)
    && linked == StillLinked(order, turn.ids, if ret == Ok then k else k - 1)
  }

  lemma StandingNext(turn: Turn, order: seq<int>, k: nat, mid: map<int, Target>, now: map<int, Target>, woken: bool,
                     w: bool, linked: seq<int>, after: seq<int>, ret: Status)
    requires k < |order| && Standing(turn, order, k, mid, Ok, woken, linked) && mid.Keys == turn.was.Keys
    requires FlagsNext(mid, now, order[k], order[k] in turn.ids, w)
    requires after == if ret == Ok && order[k] in turn.ids then Remove(linked, order[k]) else linked
    ensures Standing(turn, order, k + 1, now, ret, woken || w, after)
  {
    SeenNext(turn, order, k, mid, now, woken, w);
  }

  /** A target with its flag set is linked, so a turn that gets to the end has seen them all. */
  lemma WokenExactly(turn: Turn, order: seq<int>, k: nat, now: map<int, Target>, woken: bool)
    requires Inv(turn.was, order) && Seen(turn, order, k, now, woken)
    ensures k == |order| ==> (woken <==> exists id :: id in turn.ids && id in turn.was && turn.was[id].wakeup)
  {
    if k == |order| {
      forall q | q in turn.was && turn.was[q].wakeup && q in turn.ids
        ensures Flag(turn.was, q) && Among(turn, order, k, q)
      {
        assert Names(order, q);
      }
      if woken {
        var q :| Flag(turn.was, q) && Among(turn, order, k, q);
        assert q in turn.ids && q in turn.was && turn.was[q].wakeup;
      }
    }
  }

  /** The linked list without those of its first `k` targets that were asked for. */
  function StillLinked(order: seq<int>, ids: seq<int>, k: int): seq<int>
    requires k <= |order|
    decreases k
  {
    if k <= 0 then order
    else if order[k - 1] in ids then Remove(StillLinked(order, ids, k - 1), order[k - 1])
    else StillLinked(order, ids, k - 1)
  }

  /** So those that are left are the ones behind them and the ones not asked for. */
  lemma {:induction false} StillLinkedExactly(order: seq<int>, ids: seq<int>, k: nat, q: int)
    requires k <= |order| && Distinct(order)
    ensures Distinct(StillLinked(order, ids, k))
    ensures Names(StillLinked(order, ids, k), q)
            <==> Names(order, q) && !(Names(ids, q) && Names(order[..k], q))
  {
    if k == 0 {
    } else {
      StillLinkedExactly(order, ids, k - 1, q);
      NamesNext(order, k - 1, q);
      RemovedOnly(StillLinked(order, ids, k - 1), order[k - 1], q);
    }
  }

  lemma NamesNext(order: seq<int>, k: nat, q: int)
    requires k < |order|
    ensures Names(order[..k + 1], q) <==> Names(order[..k], q) || q == order[k]
    ensures Names(order, order[k])
  {
    TakeNext(order, k);
  }

  lemma RemovedOnly(list: seq<int>, id: int, q: int)
    requires Distinct(list)
    ensures Names(Remove(list, id), q) <==> Names(list, q) && q != id
    ensures Distinct(Remove(list, id))
  {
    OthersLinked(list, id);
  }

  /** The state of the loop in `OneApp_Receive` before the `k`-th target: those before it have been
      dealt with; if the loop has stopped, then at the one before it, all before that having been
      dealt with, because its next packet does not fit or takes too many copies. */
  ghost predicate Going(turn: Turn, order: seq<int>, k: nat, now: map<int, Target>, ret: Status, dst: seq<Byte>,
                        taken: seq<Stored>, received: nat, length: nat, more: nat) {
    && k <= |order| && (ret == Ok || ret == E2big || ret == Efault) && Known(order, now)
    && Progress(turn, now, ret, dst, taken, received, length, more)
    && (ret == Ok ==> Emptied(now, turn.ids, order, k))
    && (ret != Ok ==> k > 0 && Emptied(now, turn.ids, order, k - 1)
                      && StopsAt(now, turn.ids, ret, turn.lens, received, length, more, order[k - 1]))
  }

  /** One target was received from, and nothing is left of it if that went well. */
  ghost predicate OnlyOne(was: map<int, Target>, now: map<int, Target>, id: int, ret: Status) {
    id in now && now == was[id := now[id]] && (ret == Ok ==> now[id] == Target([], false))
  }

  /** A target that is asked for. */
  lemma Asked(turn: Turn, order: seq<int>, k: nat, mid: map<int, Target>, now: map<int, Target>, ret: Status,
              dst: seq<Byte>, taken: seq<Stored>, received: nat, length: nat, more: nat)
    requires k < |order| && Emptied(mid, turn.ids, order, k) && Known(order, mid)
    requires OnlyOne(mid, now, order[k], ret) && (ret == Ok || ret == E2big || ret == Efault)
    requires Progress(turn, now, ret, dst, taken, received, length, more)
    requires StopsAt(now, turn.ids, ret, turn.lens, received, length, more, order[k])
    requires Distinct(order)
    ensures Going(turn, order, k + 1, now, ret, dst, taken, received, length, more)
  {
    EmptiedNext(mid, now, turn.ids, order, k, ret);
  }

  /** A target that is not asked for. */
  lemma Skipped(turn: Turn, order: seq<int>, k: nat, now: map<int, Target>, dst: seq<Byte>,
                taken: seq<Stored>, received: nat, length: nat, more: nat)
    requires k < |order| && order[k] !in turn.ids
    requires Going(turn, order, k, now, Ok, dst, taken, received, length, more)
    ensures Going(turn, order, k + 1, now, Ok, dst, taken, received, length, more)
  {
  }

  lemma EmptiedNext(was: map<int, Target>, now: map<int, Target>, ids: seq<int>, order: seq<int>, k: nat, ret: Status)
    requires k < |order| && Emptied(was, ids, order, k) && OnlyOne(was, now, order[k], ret)
    requires Distinct(order)
    ensures Emptied(now, ids, order, k) && (ret == Ok ==> Emptied(now, ids, order, k + 1))
  {
    forall j | 0 <= j < k && order[j] in ids
      ensures order[j] in now && now[order[j]] == Target([], false)
    {
      assert order[j] in was && was[order[j]] == Target([], false);
    }
  }

  /** And its end: none is left, the next one does not fit, or one of its copies would fail. */
  ghost predicate Drained(was: map<int, Target>, now: map<int, Target>, id: int, dst: seq<Byte>, dst0: seq<Byte>,
                          lens: seq<nat>, before: seq<Stored>, taken: seq<Stored>, offset: nat, received: nat,
                          copies: nat, more: nat, length: nat, status: Status) {
    && Shorter(was, now, id, taken)
    && Tally(lens, before, taken, offset, received, copies, more) && received <= length
    && Got(status, dst, dst0, lens, before + taken)
    && (status == Ok || status == E2big || status == Efault)
    && status == Refusal(now[id].packets, lens, offset + received, length - received, more)
  }

  lemma DrainedAt(was: map<int, Target>, now: map<int, Target>, id: int, dst: seq<Byte>, dst0: seq<Byte>,
                  lens: seq<nat>, before: seq<Stored>, taken: seq<Stored>, offset: nat, received: nat,
                  copies: nat, more: nat, length: nat, status: Status)
    requires Shorter(was, now, id, taken) && Tally(lens, before, taken, offset, received, copies, more)
    requires received <= length && (status == E2big || status == Efault)
    requires Got(status, dst, dst0, lens, before + taken)
    requires status == Refusal(now[id].packets, lens, offset + received, length - received, more)
    ensures Drained(was, now, id, dst, dst0, lens, before, taken, offset, received, copies, more, length, status)
  {
  }

  lemma ReadingNext(was: map<int, Target>, mid: map<int, Target>, now: map<int, Target>, id: int, dst: seq<Byte>,
                    dst0: seq<Byte>, lens: seq<nat>, before: seq<Stored>, taken: seq<Stored>,
                    offset: nat, received: nat, copies: nat, more: nat, p: Stored)
    requires Shorter(was, mid, id, taken) && mid[id].packets != [] && p == mid[id].packets[0]
    requires now == mid[id := Target(mid[id].packets[1..], mid[id].wakeup)]
    requires Tally(lens, before, taken, offset, received, copies, more)
    requires Needs(lens, offset + received, p) <= more
    requires Filling(dst, dst0, lens, before + taken + [p])
    ensures Reading(was, now, id, dst, dst0, lens, before, taken + [p], offset, received + p.Length(), copies,
                    more - Needs(lens, offset + received, p))
    ensures id in now && |now[id].packets| < |mid[id].packets|
  {
    ShorterNext(was, mid, id, taken);
    TallyNext(lens, before, taken, offset, received, copies, more, p);
  }

  /** The state of the loop in `receive_from`, when `taken` was read behind `before`. */
  ghost predicate Reading(was: map<int, Target>, now: map<int, Target>, id: int, dst: seq<Byte>, dst0: seq<Byte>,
                          lens: seq<nat>, before: seq<Stored>, taken: seq<Stored>, offset: nat, received: nat,
                          copies: nat, more: nat) {
    && Shorter(was, now, id, taken)
    && Tally(lens, before, taken, offset, received, copies, more)
    && Filling(dst, dst0, lens, before + taken)
  }

  /** The sums after `taken` was read behind `before`: bytes received and copies left. */
  ghost predicate Tally(lens: seq<nat>, before: seq<Stored>, taken: seq<Stored>, offset: nat, received: nat,
                        copies: nat, more: nat) {
    && received == LengthAll(taken) && LengthAll(before + taken) == offset + received
    && PiecesAll(lens, before + taken) + more == PiecesAll(lens, before) + copies
  }

  /** Why receiving from a target stops: none is left, the first one left does not fit, or one
      of its copies fails. */
  function Refusal(packets: seq<Stored>, lens: seq<nat>, offset: nat, length: int, more: nat): Status {
    if packets == [] then Ok
    else if packets[0].Length() > length then E2big
    else if Needs(lens, offset, packets[0]) > more then Efault
    else Eagain
  }

  /** The first packet left is taken if it fits the room, to the last byte, and its copies succeed; what
      does not fit is refused before any copy is made. */
  lemma RefusalExactly(packets: seq<Stored>, lens: seq<nat>, offset: nat, length: int, more: nat)
    ensures var refusal := Refusal(packets, lens, offset, length, more);
            && (refusal == Ok <==> packets == [])
            && (refusal == E2big <==> packets != [] && HEADER + packets[0].header.size > length)
            && (refusal == Efault <==>
                  && packets != [] && HEADER + packets[0].header.size <= length
                  && more < Pieces(lens, offset, HEADER + packets[0].header.size))
  {
  }

  /** Per queue, what was taken and what is left make up what was there, in order. */
  ghost predicate Conserved(was: map<int, Target>, now: map<int, Target>, taken: seq<Stored>) {
    && now.Keys == was.Keys
    && (forall q {:trigger For(taken, q)} :: q in was ==> was[q].packets == For(taken, q) + now[q].packets)
    && (forall q {:trigger TargetInv(was[q], q)} :: q in was ==> TargetInv(was[q], q))
  }

  ghost predicate Got(ret: Status, dst: seq<Byte>, dst0: seq<Byte>, lens: seq<nat>, taken: seq<Stored>) {
    if ret == Efault then FilledUpTo(dst, dst0, lens, taken) else Filling(dst, dst0, lens, taken)
  }

  /** Where `OneApp_Receive` stands when it has received `taken`, has `length` bytes of room and
      `more` copies left, and `ret` is how it has fared: of every queue the first packets were
      taken, in order; they lie in the buffer one after the other; and queues not asked for are as
      they were. */
  ghost predicate Progress(turn: Turn, now: map<int, Target>, ret: Status, dst: seq<Byte>,
                           taken: seq<Stored>, received: nat, length: nat, more: nat) {
    && Conserved(turn.was, now, taken) && Untouched(turn.was, now, turn.ids)
    && received == LengthAll(taken) && received + length == Sum(turn.lens)
    && PiecesAll(turn.lens, taken) + more == turn.copies
    && Got(ret, dst, turn.dst0, turn.lens, taken)
  }

  /** Queue `q`, which was asked for, is left as it is because of `ret`. */
  ghost predicate StopsAt(targets: map<int, Target>, ids: seq<int>, ret: Status, lens: seq<nat>,
                          received: nat, length: nat, more: nat, q: int) {
    q in targets && q in ids && Refusal(targets[q].packets, lens, received, length, more) == ret
  }

  lemma Beginning(turn: Turn, recv: seq<int>)
    requires Inv(turn.was, recv) && |turn.dst0| == Sum(turn.lens)
    ensures Going(turn, recv, 0, turn.was, Ok, turn.dst0, [], 0, Sum(turn.lens), turn.copies)
    ensures Standing(turn, recv, 0, turn.was, Ok, false, recv)
  {
    forall q | q in turn.was
      ensures turn.was[q].packets == For([], q) + turn.was[q].packets
    {
    }
  }

  /** What it means for the caller. */
  lemma Ending(turn: Turn, order: seq<int>, k: nat, now: map<int, Target>, ret: Status, dst: seq<Byte>,
               taken: seq<Stored>, received: nat, length: nat, more: nat)
    requires Going(turn, order, k, now, ret, dst, taken, received, length, more) && (ret == Ok ==> k == |order|)
    ensures ret == Ok ==> forall id :: id in turn.ids && id in order ==> id in now && now[id] == Target([], false)
    ensures ret == Efault ==> turn.copies < Sum(turn.lens)
    ensures received <= |dst| == |turn.dst0| && (HeadersWhole(turn.lens, taken) ==>
              && dst[..received] == Laid(taken)
              && (ret != Efault ==> dst == Laid(taken) + turn.dst0[received..]))
  {
    if ret == Efault {
      var q := order[k - 1];
      PiecesAllBounded(turn.lens, taken);
      PiecesBounded(turn.lens, received, now[q].packets[0].Length());
    }
    if HeadersWhole(turn.lens, taken) {
      FilledWhole(turn.dst0, turn.lens, taken);
      assert forall k :: 0 <= k < received ==> dst[k] == Laid(taken)[k];
    }
  }

  /** One more target received from. */
  lemma ProgressNext(turn: Turn, was: map<int, Target>, mid: map<int, Target>, now: map<int, Target>, id: int,
                     full: seq<Byte>, dst: seq<Byte>, done: seq<Stored>, taken: seq<Stored>, ret: Status,
                     offset: nat, received: nat, length: nat, copies: nat, more: nat)
    requires Progress(turn, was, Ok, full, done, offset, length, copies)
    requires id in was && id in turn.ids && mid == was[id := Target(was[id].packets, false)] && TargetInv(mid[id], id)
    requires Shorter(mid, now, id, taken) && received <= length
    requires Tally(turn.lens, done, taken, offset, received, copies, more)
    requires Got(ret, dst, turn.dst0, turn.lens, done + taken)
    ensures Progress(turn, now, ret, dst, done + taken, offset + received, length - received, more)
  {
    ConservedNext(turn.was, was, mid, now, done, id, taken);
    UntouchedNext(turn.was, was, now, turn.ids, id);
  }

  /** Queues that were not asked for are left alone. */
  ghost predicate Untouched(was: map<int, Target>, now: map<int, Target>, ids: seq<int>) {
    now.Keys == was.Keys && forall q {:trigger Same(was, now, q)} :: q in was && q !in ids ==> Same(was, now, q)
  }

  ghost predicate Same(was: map<int, Target>, now: map<int, Target>, q: int) {
    q in was && q in now && now[q] == was[q]
  }

  lemma UntouchedNext(was: map<int, Target>, mid: map<int, Target>, now: map<int, Target>, ids: seq<int>, id: int)
    requires Untouched(was, mid, ids) && id in ids && id in mid && id in now && now == mid[id := now[id]]
    ensures Untouched(was, now, ids)
  {
    forall q | q in was && q !in ids
      ensures Same(was, now, q)
    {
      assert Same(was, mid, q);
    }
  }

  lemma ConservedNext(before: map<int, Target>, was: map<int, Target>, mid: map<int, Target>, now: map<int, Target>,
                      done: seq<Stored>, id: int, taken: seq<Stored>)
    requires Conserved(before, was, done) && id in was && mid == was[id := Target(was[id].packets, false)]
    requires Shorter(mid, now, id, taken) && TargetInv(mid[id], id)
    ensures Conserved(before, now, done + taken)
  {
    forall q | q in before
      ensures before[q].packets == For(done + taken, q) + now[q].packets
    {
      assert forall i :: 0 <= i < |taken| ==> taken[i] == mid[id].packets[i];
      ForAppend(done, taken, q);
      ForOne(taken, id, q);
      assert before[q].packets == For(done, q) + was[q].packets;
      if q == id {
        Associates(For(done, q), taken, now[q].packets);
      }
    }
  }

  /** One target has lost `taken` from its front; all else is the same. */
  ghost predicate Shorter(was: map<int, Target>, now: map<int, Target>, id: int, taken: seq<Stored>) {
    && id in was && id in now && now == was[id := Target(now[id].packets, was[id].wakeup)]
    && was[id].packets == taken + now[id].packets
  }

  lemma ShorterNext(was: map<int, Target>, mid: map<int, Target>, id: int, taken: seq<Stored>)
    requires Shorter(was, mid, id, taken) && mid[id].packets != []
    ensures Shorter(was, mid[id := Target(mid[id].packets[1..], mid[id].wakeup)], id, taken + [mid[id].packets[0]])
  {
    DropFirst(mid[id].packets);
    Associates(taken, [mid[id].packets[0]], mid[id].packets[1..]);
  }

  /** Unlinking a target leaves the others linked. */
  lemma OthersLinked(recv: seq<int>, id: int)
    requires forall i, j :: 0 <= i < j < |recv| ==> recv[i] != recv[j]
    ensures forall q {:trigger Names(Remove(recv, id), q)} :: q != id && q in recv ==> Names(Remove(recv, id), q)
    ensures forall i :: 0 <= i < |Remove(recv, id)| ==> Remove(recv, id)[i] in recv && Remove(recv, id)[i] != id
    ensures forall i, j :: 0 <= i < j < |Remove(recv, id)| ==> Remove(recv, id)[i] != Remove(recv, id)[j]
  {
    var linked := set i: int | i in recv;
    ListsRemove(recv, linked, id);
    forall q | q != id && q in recv
      ensures Names(Remove(recv, id), q)
    {
      assert q in linked - {id};
    }
  }

  lemma UnlinkedIdle(targets: map<int, Target>, recv: seq<int>, id: int)
    requires Inv(targets, recv) && id in targets && targets[id] == Target([], false)
    ensures Inv(targets, Remove(recv, id))
  {
    OthersLinked(recv, id);
    forall q | q in targets && (targets[q].packets != [] || targets[q].wakeup)
      ensures Names(Remove(recv, id), q)
    {
      assert Names(recv, q);
    }
  }

  /** The buffer holds the packets, one after the other, and is otherwise as it was. */
  ghost predicate Filling(dst: seq<Byte>, dst0: seq<Byte>, lens: seq<nat>, ps: seq<Stored>) {
    AllProper(ps) && LengthAll(ps) <= Sum(lens) == |dst0| && dst == Filled(dst0, lens, ps)
  }

  /** The buffer holds the packets; a copy that failed may have written behind them. */
  ghost predicate FilledUpTo(dst: seq<Byte>, dst0: seq<Byte>, lens: seq<nat>, ps: seq<Stored>) {
    && AllProper(ps) && LengthAll(ps) <= Sum(lens) == |dst0| == |dst|
    && forall k :: 0 <= k < LengthAll(ps) ==> dst[k] == Filled(dst0, lens, ps)[k]
  }

  lemma FillingNext(dst: seq<Byte>, dst0: seq<Byte>, lens: seq<nat>, ps: seq<Stored>, p: Stored)
    requires Filling(dst, dst0, lens, ps) && p.Proper() && LengthAll(ps) + p.Length() <= Sum(lens)
    ensures Filling(Put(dst, lens, LengthAll(ps), Memory(p.header, p.buf), p.Length()), dst0, lens, ps + [p])
  {
    FilledLast(dst0, lens, ps, p);
  }

  lemma TallyNext(lens: seq<nat>, before: seq<Stored>, taken: seq<Stored>, offset: nat, received: nat,
                  copies: nat, more: nat, p: Stored)
    requires Tally(lens, before, taken, offset, received, copies, more)
    requires Needs(lens, offset + received, p) <= more
    ensures before + taken + [p] == before + (taken + [p])
    ensures Tally(lens, before, taken + [p], offset, received + p.Length(), copies,
                  more - Needs(lens, offset + received, p))
  {
    Associates(before, taken, [p]);
    AppendLast(taken, p);
    AppendLast(before + taken, p);
    PiecesAllLast(lens, before + taken, p);
  }

  lemma StillFilled(full: seq<Byte>, dst: seq<Byte>, dst0: seq<Byte>, lens: seq<nat>, ps: seq<Stored>)
    requires Filling(full, dst0, lens, ps) && |dst| == |full|
    requires forall k :: 0 <= k < LengthAll(ps) ==> dst[k] == full[k]
    ensures FilledUpTo(dst, dst0, lens, ps)
  {
  }

  lemma Shortened(targets: map<int, Target>, recv: seq<int>, id: int)
    requires Inv(targets, recv) && id in targets && targets[id].packets != []
    ensures Inv(targets[id := Target(targets[id].packets[1..], targets[id].wakeup)], recv)
  {
    assert TargetInv(targets[id], id);
  }

  lemma Unlinked(targets: map<int, Target>, recv: seq<int>, id: int)
    requires Inv(targets, recv) && id in targets
    ensures Inv(targets - {id}, Remove(recv, id))
  {
    OthersLinked(recv, id);
    forall q | q in targets - {id} && (targets[q].packets != [] || targets[q].wakeup)
      ensures Names(Remove(recv, id), q)
    {
      assert Names(recv, q);
    }
  }

  /** A target that is linked may have anything for its queue. */
  lemma LinkedInv(targets: map<int, Target>, recv: seq<int>, id: int, t: Target)
    requires Inv(targets, recv) && id in targets && TargetInv(t, id)
    ensures Inv(targets[id := t], if id in recv then recv else recv + [id])
  {
    var more := if id in recv then recv else recv + [id];
    forall q | q in targets[id := t] && (targets[id := t][q].packets != [] || targets[id := t][q].wakeup)
      ensures Names(more, q)
    {
      assert q != id ==> Names(recv, q);
    }
  }

  lemma Enqueued(targets: map<int, Target>, recv: seq<int>, id: int, p: Stored)
    requires Inv(targets, recv) && id in targets && p.Proper() && p.header.queueId == id
    ensures Inv(targets[id := Target(targets[id].packets + [p], targets[id].wakeup)],
                if id in recv then recv else recv + [id])
  {
    assert TargetInv(targets[id], id);
    LinkedInv(targets, recv, id, Target(targets[id].packets + [p], targets[id].wakeup));
  }
}
