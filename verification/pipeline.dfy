/** The message queue of one fusionee (fusionee.c): what sending and reading do to it,
    and what arrives over any interleaving of the two.

    A packet is described by the messages packed into it, each with the completion
    callback it carries, if any. */
module Pipeline {
  import opened Errno
  import opened Messages
  import opened Sequences

  const MAX_PACKET: nat := 16384
  const MAX_QUEUED: nat := 10
  const MASTER := 1
  const LEAVE := 5

  datatype Callback = Callback(func: int, id: int, ctx: int, param: int)

  datatype Item = Plain(m: Message) | Calling(m: Message, callback: Callback)

  datatype Pack = Pack(items: seq<Item>, flush: bool)

  /** `ran` lists the callbacks run so far. */
  datatype State = State(packets: seq<Pack>, prev: seq<Pack>, free: nat, dispatcher: int, ran: seq<Callback>)

  /** A callback function number of zero means that there is no callback. */
  function ItemOf(m: Message, callback: Callback): Item {
    if callback.func != 0 then Calling(m, callback) else Plain(m)
  }

  function Bodies(items: seq<Item>): (ms: seq<Message>)
    ensures |ms| == |items|
  {
    if items == [] then [] else Bodies(items[..|items| - 1]) + [items[|items| - 1].m]
  }

  function Calls(items: seq<Item>): seq<Callback> {
    if items == [] then []
    else
      var last := items[|items| - 1];
      Calls(items[..|items| - 1]) + (if last.Calling? then [last.callback] else [])
  }

  /** Everything in a list of packets, in order. */
  function Items(ps: seq<Pack>): seq<Item> {
    if ps == [] then [] else ps[0].items + Items(ps[1..])
  }

  function Length(p: Pack): nat {
    SizeAll(Bodies(p.items))
  }

  // Sending.

  /** A message carries the callback it was sent with, if there is one. */
  lemma CarriesCallback(m: Message, callback: Callback)
    ensures Bodies([ItemOf(m, callback)]) == [m]
    ensures Calls([ItemOf(m, callback)]) == if callback.func == 0 then [] else [callback]
  {
    OneBody(ItemOf(m, callback));
  }

  /** The environment of one send: whether allocations and the copy from user memory fail. */
  datatype Luck = Luck(noPacket: bool, copyFails: bool, noCallback: bool)

  /** The condition on which a sender goes to sleep. */
  predicate MustWait(s: State, sender: int, pid: int, kind: int) {
    |s.packets| > MAX_QUEUED && sender != 0 && sender != MASTER && pid != s.dispatcher && kind != LEAVE
  }

  function Flushed(ps: seq<Pack>): (qs: seq<Pack>)
    requires ps != []
    ensures |qs| == |ps|
  {
    ps[..|ps| - 1] + [ps[|ps| - 1].(flush := true)]
  }

  function Last(ps: seq<Pack>): Pack
    requires ps != []
  {
    ps[|ps| - 1]
  }

  /** `Fusionee_GetPacket`: on success the last packet is the one to write to. */
  function Placed(s: State, size: nat, noPacket: bool): (r: (Status, State))
    ensures r.0 == Ok ==> r.1.packets != []
  {
    if size > MAX_PACKET then (E2big, s)
    else if s.packets != [] && Length(Last(s.packets)) + size <= MAX_PACKET then (Ok, s)
    else
      var marked := if s.packets == [] then [] else Flushed(s.packets);
      if s.free > 0 then (Ok, s.(packets := marked + [Pack([], false)], free := s.free - 1))
      else if noPacket then (Enomem, s.(packets := marked))
      else (Ok, s.(packets := marked + [Pack([], false)]))
  }

  function Appended(ps: seq<Pack>, item: Item, flush: bool): seq<Pack>
    requires ps != []
  {
    ps[..|ps| - 1] + [Pack(Last(ps).items + [item], Last(ps).flush || flush)]
  }

  /** `fusionee_send_message2`, from when it need not wait. */
  function Sent(s: State, item: Item, flush: bool, luck: Luck): (Status, State) {
    var (status, t) := Placed(s, HEADER + |item.m.data|, luck.noPacket);
    if status != Ok then (status, t)
    else if luck.copyFails then (Efault, t)
    else if item.Calling? && luck.noCallback then (Enomem, t)
    else (Ok, t.(packets := Appended(t.packets, item, flush)))
  }

  // Reading.

  predicate Ready(s: State) {
    s.packets != [] && s.packets[0].flush
  }

  function Put(free: nat): nat {
    if free > 11 then free else free + 1
  }

  /** `flush_packets`: the callbacks run and the packets are put back. */
  function Completed(s: State, ps: seq<Pack>): State
    decreases |ps|
  {
    if ps == [] then s
    else Completed(s.(ran := s.ran + Calls(ps[0].items), free := Put(s.free)), ps[1..])
  }

  /** A delivered packet leaves the queue. */
  function Taken(s: State): State
    requires s.packets != []
  {
    var p := s.packets[0];
    if Calls(p.items) != [] then s.(packets := s.packets[1..], prev := s.prev + [p])
    else s.(packets := s.packets[1..], free := Put(s.free))
  }

  /** How many packets are copied to a reader with `room` left in its buffer, when the
      copy after `copies` more successful ones fails. */
  function Count(ps: seq<Pack>, room: nat, copies: nat): (k: nat)
    ensures k <= |ps| && k <= copies
  {
    if ps == [] || !ps[0].flush || Length(ps[0]) > room || copies == 0 then 0
    else 1 + Count(ps[1..], room - Length(ps[0]), copies - 1)
  }

  function Outcome(ps: seq<Pack>, room: nat, copies: nat, written: nat): Status {
    if ps == [] || !ps[0].flush then Ok
    else if Length(ps[0]) > room then if written == 0 then Emsgsize else Ok
    else if copies == 0 then Efault
    else Outcome(ps[1..], room - Length(ps[0]), copies - 1, written + Length(ps[0]))
  }

  /** The first `k` packets leave the queue. */
  function TakenAll(s: State, k: nat): (t: State)
    requires k <= |s.packets|
    ensures t.packets == s.packets[k..] && t.ran == s.ran && t.dispatcher == s.dispatcher
    ensures s.free <= 12 ==> t.free <= 12
    decreases k
  {
    if k == 0 then s else TakenAll(Taken(s), k - 1)
  }

  /** `fusionee_get_messages` by thread `pid`, up to where it would sleep. A reader that
      `resumes` after sleeping has already taken the previous packets and run their callbacks. */
  function ReadBy(s: State, pid: int, resumes: bool, room: nat, copies: nat): (Status, State, seq<Item>) {
    var prev := if resumes then [] else s.prev;
    var t := if resumes then s else s.(dispatcher := pid, prev := []);
    if !Ready(t) then (Eagain, Completed(t, prev), [])
    else
      var k := Count(t.packets, room, copies);
      (Outcome(t.packets, room, copies, 0), Completed(TakenAll(t, k), prev), Items(t.packets[..k]))
  }

  // What the operations keep.

  predicate Sized(p: Pack) {
    Length(p) <= MAX_PACKET && (p.flush ==> p.items != [])
  }

  /** Room in every packet, and every queued packet but the last is flushed. */
  predicate InOrder(ps: seq<Pack>) {
    && (forall i :: 0 <= i < |ps| ==> Sized(ps[i]))
    && (forall i :: 0 <= i < |ps| - 1 ==> ps[i].flush)
  }

  predicate Tidy(s: State) {
    InOrder(s.packets) && s.free <= 12
  }

  lemma BodiesLast(items: seq<Item>, item: Item)
    ensures Bodies(items + [item]) == Bodies(items) + [item.m]
    ensures Calls(items + [item]) == Calls(items) + Calls([item])
  {
    assert (items + [item])[..|items + [item]| - 1] == items;
    assert [item][..0] == [];
  }

  lemma {:induction false} BodiesAppend(a: seq<Item>, b: seq<Item>)
    ensures Bodies(a + b) == Bodies(a) + Bodies(b)
    ensures Calls(a + b) == Calls(a) + Calls(b)
  {
    if b == [] {
      assert a + b == a;
    } else {
      var c, item := b[..|b| - 1], b[|b| - 1];
      SplitLast(b);
      BodiesAppend(a, c);
      BodiesLast(a + c, item);
      BodiesLast(c, item);
      Associates(a, c, [item]);
    }
  }

  lemma {:induction false} ItemsAppend(a: seq<Pack>, b: seq<Pack>)
    ensures Items(a + b) == Items(a) + Items(b)
  {
    if a == [] {
      assert a + b == b;
    } else {
      ItemsAppend(a[1..], b);
      assert (a + b)[1..] == a[1..] + b;
      Associates(a[0].items, Items(a[1..]), Items(b));
    }
  }

  /** The room check on the unaligned size is enough for the aligned one. */
  lemma AlignedFits(used: nat, total: nat)
    requires used % 4 == 0 && used + total <= MAX_PACKET
    ensures used + Aligned(total) <= MAX_PACKET
  {
  }

  lemma {:induction false} SizeAllAppend(a: seq<Message>, b: seq<Message>)
    ensures SizeAll(a + b) == SizeAll(a) + SizeAll(b)
  {
    if b == [] {
      assert a + b == a;
    } else {
      SizeAllAppend(a, b[..|b| - 1]);
      assert (a + b)[..|a + b| - 1] == a + b[..|b| - 1];
    }
  }

  lemma ItemsLast(ps: seq<Pack>, p: Pack)
    ensures Items(ps + [p]) == Items(ps) + p.items
  {
    ItemsAppend(ps, [p]);
    assert Items([p]) == p.items + Items([]);
  }

  lemma TakenCalls(s: State)
    requires s.packets != []
    ensures Calls(Items(Taken(s).prev)) == Calls(Items(s.prev)) + Calls(s.packets[0].items)
  {
    ItemsLast(s.prev, s.packets[0]);
    BodiesAppend(Items(s.prev), s.packets[0].items);
  }

  lemma FlushedItems(ps: seq<Pack>)
    requires ps != []
    ensures Items(Flushed(ps)) == Items(ps) && Items(Flushed(ps) + [Pack([], false)]) == Items(ps)
  {
    var init := ps[..|ps| - 1];
    SplitLast(ps);
    ItemsAppend(init, [Last(ps)]);
    ItemsAppend(init, [Last(ps).(flush := true)]);
    ItemsAppend(Flushed(ps), [Pack([], false)]);
  }

  lemma FlushedInOrder(ps: seq<Pack>)
    requires ps != [] && InOrder(ps) && Last(ps).items != []
    ensures InOrder(Flushed(ps)) && InOrder(Flushed(ps) + [Pack([], false)])
  {
  }

  lemma PlacedItems(s: State, size: nat, noPacket: bool)
    ensures var t := Placed(s, size, noPacket).1;
            && t.prev == s.prev && t.ran == s.ran && t.dispatcher == s.dispatcher
            && Items(t.packets) == Items(s.packets)
  {
    if s.packets != [] {
      FlushedItems(s.packets);
    }
  }

  lemma PlacedInOrder(s: State, size: nat, noPacket: bool)
    requires Tidy(s) && size >= HEADER
    ensures Tidy(Placed(s, size, noPacket).1)
  {
    if s.packets != [] && size <= MAX_PACKET && Length(Last(s.packets)) + size > MAX_PACKET {
      FlushedInOrder(s.packets);
    }
  }

  lemma PlacedRoom(s: State, size: nat, noPacket: bool)
    ensures var (status, t) := Placed(s, size, noPacket);
            status == Ok ==> Length(Last(t.packets)) + size <= MAX_PACKET
  {
    assert SizeAll(Bodies([])) == 0;
  }

  lemma AppendedItems(ps: seq<Pack>, item: Item, flush: bool)
    requires ps != []
    ensures Items(Appended(ps, item, flush)) == Items(ps) + [item]
  {
    var init := ps[..|ps| - 1];
    SplitLast(ps);
    ItemsAppend(init, [Last(ps)]);
    ItemsAppend(init, [Last(Appended(ps, item, flush))]);
    Associates(Items(init), Last(ps).items, [item]);
  }

  lemma AppendedInOrder(ps: seq<Pack>, item: Item, flush: bool)
    requires ps != [] && InOrder(ps)
    requires Length(Last(ps)) + HEADER + |item.m.data| <= MAX_PACKET
    ensures InOrder(Appended(ps, item, flush))
  {
    AppendedSized(Last(ps), item, flush);
  }

  lemma AppendedSized(last: Pack, item: Item, flush: bool)
    requires Sized(last) && Length(last) + HEADER + |item.m.data| <= MAX_PACKET
    ensures Sized(Pack(last.items + [item], last.flush || flush))
  {
    AlignedFits(Length(last), HEADER + |item.m.data|);
    BodiesLast(last.items, item);
    SizeAllLast(Bodies(last.items), item.m);
  }

  lemma SizeAllLast(ms: seq<Message>, m: Message)
    ensures SizeAll(ms + [m]) == SizeAll(ms) + Size(m)
  {
    assert (ms + [m])[..|ms + [m]| - 1] == ms;
  }

  /** A send adds its message at the end if it succeeds, and otherwise nothing. */
  lemma SentItems(s: State, item: Item, flush: bool, luck: Luck)
    ensures var (status, t) := Sent(s, item, flush, luck);
            && t.prev == s.prev && t.ran == s.ran && t.dispatcher == s.dispatcher
            && Items(t.packets) == (if status == Ok then Items(s.packets) + [item] else Items(s.packets))
  {
    PlacedItems(s, HEADER + |item.m.data|, luck.noPacket);
    var (status, t) := Placed(s, HEADER + |item.m.data|, luck.noPacket);
    if status == Ok {
      AppendedItems(t.packets, item, flush);
    }
  }

  lemma SentTidy(s: State, item: Item, flush: bool, luck: Luck)
    requires Tidy(s)
    ensures Tidy(Sent(s, item, flush, luck).1)
  {
    PlacedInOrder(s, HEADER + |item.m.data|, luck.noPacket);
    PlacedRoom(s, HEADER + |item.m.data|, luck.noPacket);
    var (status, t) := Placed(s, HEADER + |item.m.data|, luck.noPacket);
    if status == Ok {
      AppendedInOrder(t.packets, item, flush);
    }
  }

  // Reading keeps everything in order as well.

  lemma {:induction false} CompletedKeeps(s: State, ps: seq<Pack>)
    requires Tidy(s)
    ensures var t := Completed(s, ps);
            Tidy(t) && t == s.(ran := s.ran + Calls(Items(ps)), free := t.free)
    decreases |ps|
  {
    if ps == [] {
    } else {
      var next := s.(ran := s.ran + Calls(ps[0].items), free := Put(s.free));
      CompletedKeeps(next, ps[1..]);
      BodiesAppend(ps[0].items, Items(ps[1..]));
      Associates(s.ran, Calls(ps[0].items), Calls(Items(ps[1..])));
    }
  }

  lemma FirstTakenCalls(ps: seq<Pack>, k: nat)
    requires 0 < k <= |ps|
    ensures Calls(Items(ps[..k])) == Calls(ps[0].items) + Calls(Items(ps[1..][..k - 1]))
  {
    FirstTakenItems(ps, k);
    BodiesAppend(ps[0].items, Items(ps[1..][..k - 1]));
  }

  lemma FirstTakenItems(ps: seq<Pack>, k: nat)
    requires 0 < k <= |ps|
    ensures Items(ps[..k]) == ps[0].items + Items(ps[1..][..k - 1])
  {
    FirstTaken(ps, k);
    var rest := ps[1..][..k - 1];
    assert ([ps[0]] + rest)[1..] == rest;
  }

  /** The callbacks of what is taken wait for the next read. */
  lemma {:induction false} TakenAllCalls(s: State, k: nat)
    requires k <= |s.packets|
    ensures Calls(Items(TakenAll(s, k).prev)) == Calls(Items(s.prev)) + Calls(Items(s.packets[..k]))
    decreases k
  {
    if k == 0 {
    } else {
      var t, p := Taken(s), s.packets[0];
      TakenAllCalls(t, k - 1);
      TakenCalls(s);
      FirstTakenCalls(s.packets, k);
      assert TakenAll(s, k) == TakenAll(t, k - 1);
      Associates(Calls(Items(s.prev)), Calls(p.items), Calls(Items(t.packets[..k - 1])));
    }
  }

  lemma SplitItems(ps: seq<Pack>, k: nat)
    requires k <= |ps|
    ensures Items(ps) == Items(ps[..k]) + Items(ps[k..])
  {
    Halves(ps, k);
    ItemsAppend(ps[..k], ps[k..]);
  }

  lemma DropInOrder(ps: seq<Pack>, k: nat)
    requires InOrder(ps) && k <= |ps|
    ensures InOrder(ps[k..])
  {
  }

  // What exactly one operation does.

  /** Whether a message of this size needs another packet. */
  predicate NeedsPacket(s: State, size: nat) {
    s.packets == [] || Length(Last(s.packets)) + size > MAX_PACKET
  }

  /** The packets before the last are as they were, but what was the last one is flushed if there is another now. */
  ghost predicate FrontKept(ps: seq<Pack>, qs: seq<Pack>) {
    && |ps| <= |qs| <= |ps| + 1
    && forall i :: 0 <= i < |qs| - 1 ==> qs[i] == if i == |ps| - 1 then ps[i].(flush := true) else ps[i]
  }

  lemma PlacedExactly(s: State, size: nat, noPacket: bool)
    ensures var (status, t) := Placed(s, size, noPacket);
            var more := NeedsPacket(s, size);
            && status == (if size > MAX_PACKET then E2big
                          else if more && s.free == 0 && noPacket then Enomem else Ok)
            && |t.packets| <= |s.packets| + 1
            && (status == Ok ==>
                  && |t.packets| == |s.packets| + (if more then 1 else 0)
                  && t.free == s.free - (if more && s.free > 0 then 1 else 0)
                  && FrontKept(s.packets, t.packets)
                  && Last(t.packets) == if more then Pack([], false) else Last(s.packets))
  {
  }

  lemma AppendedIs(ps: seq<Pack>, item: Item, flush: bool)
    requires ps != []
    ensures var qs := Appended(ps, item, flush);
            && |qs| == |ps| && Last(qs) == Pack(Last(ps).items + [item], Last(ps).flush || flush)
            && forall i :: 0 <= i < |ps| - 1 ==> qs[i] == ps[i]
  {
  }

  lemma FrontAppended(ps: seq<Pack>, qs: seq<Pack>, item: Item, flush: bool)
    requires qs != [] && FrontKept(ps, qs)
    ensures FrontKept(ps, Appended(qs, item, flush))
  {
    AppendedIs(qs, item, flush);
  }

  /** When a send succeeds, and what it says otherwise. */
  lemma SentStatusExactly(s: State, item: Item, flush: bool, luck: Luck)
    ensures var size := HEADER + |item.m.data|;
            Sent(s, item, flush, luck).0 ==
            if size > MAX_PACKET then E2big
            else if NeedsPacket(s, size) && s.free == 0 && luck.noPacket then Enomem
            else if luck.copyFails then Efault
            else if item.Calling? && luck.noCallback then Enomem
            else Ok
  {
    PlacedExactly(s, HEADER + |item.m.data|, luck.noPacket);
  }

  /** A message goes to the last packet if it has room, and else to another one, a free one if there
      is one; it is the last there, and the packet is flushed if asked for, or if it was; all packets before it
      are as they were, the one before it flushed. */
  lemma SentExactly(s: State, item: Item, flush: bool, luck: Luck)
    requires Sent(s, item, flush, luck).0 == Ok
    ensures var more, t := NeedsPacket(s, HEADER + |item.m.data|), Sent(s, item, flush, luck).1;
            && |t.packets| == |s.packets| + (if more then 1 else 0)
            && t.free == s.free - (if more && s.free > 0 then 1 else 0)
            && FrontKept(s.packets, t.packets)
            && Last(t.packets) == (if more then Pack([item], flush)
                                   else Pack(Last(s.packets).items + [item], Last(s.packets).flush || flush))
  {
    PlacedExactly(s, HEADER + |item.m.data|, luck.noPacket);
    var t := Placed(s, HEADER + |item.m.data|, luck.noPacket).1;
    AppendedIs(t.packets, item, flush);
    FrontAppended(s.packets, t.packets, item, flush);
    assert [] + [item] == [item];
  }

  function LengthAll(ps: seq<Pack>): nat {
    if ps == [] then 0 else Length(ps[0]) + LengthAll(ps[1..])
  }

  ghost predicate AllFlushed(ps: seq<Pack>) {
    forall i :: 0 <= i < |ps| ==> ps[i].flush
  }

  lemma TakenOneMore(ps: seq<Pack>, k: nat)
    requires k < |ps|
    ensures LengthAll(ps[..k + 1]) == Length(ps[0]) + LengthAll(ps[1..][..k])
    ensures ps[0].flush && AllFlushed(ps[1..][..k]) ==> AllFlushed(ps[..k + 1])
  {
    FirstTaken(ps, k + 1);
    assert ps[..k + 1][1..] == ps[1..][..k];
  }

  lemma {:induction false} CountFits(ps: seq<Pack>, room: nat, copies: nat)
    ensures LengthAll(ps[..Count(ps, room, copies)]) <= room && AllFlushed(ps[..Count(ps, room, copies)])
  {
    if ps == [] || !ps[0].flush || Length(ps[0]) > room || copies == 0 {
      assert ps[..0] == [];
    } else {
      CountFits(ps[1..], room - Length(ps[0]), copies - 1);
      TakenOneMore(ps, Count(ps[1..], room - Length(ps[0]), copies - 1));
    }
  }

  /** The `k`-th packet is not flushed, or does not fit behind those before it. */
  predicate Stops(ps: seq<Pack>, k: nat, room: int)
    requires k < |ps|
  {
    !ps[k].flush || LengthAll(ps[..k]) + Length(ps[k]) > room
  }

  lemma StopsLater(ps: seq<Pack>, k: nat, room: int)
    requires k + 1 < |ps| && Stops(ps[1..], k, room - Length(ps[0]))
    ensures Stops(ps, k + 1, room)
  {
    TakenOneMore(ps, k);
    assert ps[1..][k] == ps[k + 1];
  }

  lemma StopsHere(ps: seq<Pack>, room: int)
    requires ps != [] && (!ps[0].flush || Length(ps[0]) > room)
    ensures Stops(ps, 0, room)
  {
    assert ps[..0] == [];
  }

  lemma {:induction false} CountStops(ps: seq<Pack>, room: nat, copies: nat)
    ensures var k := Count(ps, room, copies); k < |ps| && k < copies ==> Stops(ps, k, room)
  {
    if ps == [] || copies == 0 {
    } else if !ps[0].flush || Length(ps[0]) > room {
      StopsHere(ps, room);
    } else {
      var k := Count(ps[1..], room - Length(ps[0]), copies - 1);
      CountStops(ps[1..], room - Length(ps[0]), copies - 1);
      if k < |ps[1..]| && k < copies - 1 {
        StopsLater(ps, k, room);
      }
    }
  }

  /** A read takes flushed packets as far as they fit and can be copied, and stops at the first one
      that is not flushed, does not fit or cannot be copied. */
  lemma CountExactly(ps: seq<Pack>, room: nat, copies: nat)
    ensures var k := Count(ps, room, copies);
            && LengthAll(ps[..k]) <= room && AllFlushed(ps[..k])
            && (k < |ps| && k < copies ==> Stops(ps, k, room))
  {
    CountFits(ps, room, copies);
    CountStops(ps, room, copies);
  }

  /** What a reader is told: to wait if nothing is flushed, that its buffer is too small for even one
      packet, of a failed copy, or what was read. */
  lemma ReadStatusExactly(s: State, pid: int, resumes: bool, room: nat, copies: nat)
    requires InOrder(s.packets)
    ensures ReadBy(s, pid, resumes, room, copies).0 ==
            if s.packets == [] || !s.packets[0].flush then Eagain
            else if Length(s.packets[0]) > room then Emsgsize
            else if copies < Count(s.packets, room, |s.packets|) then Efault
            else Ok
  {
    if Ready(s) {
      FaultExactly(s.packets, room, copies, 0);
      OutcomeIs(s.packets, room, copies, 0);
    }
  }

  lemma {:induction false} CountAll(ps: seq<Pack>, room: nat, copies: nat)
    requires AllFlushed(ps) && LengthAll(ps) <= room && |ps| <= copies
    ensures Count(ps, room, copies) == |ps|
  {
    if ps == [] {
    } else {
      CountAll(ps[1..], room - Length(ps[0]), copies - 1);
    }
  }

  lemma FlushedAll(s: State, item: Item, luck: Luck)
    requires Tidy(s) && Sent(s, item, true, luck).0 == Ok
    ensures AllFlushed(Sent(s, item, true, luck).1.packets)
  {
    SentExactly(s, item, true, luck);
    SentTidy(s, item, true, luck);
  }

  /** A reader with room and copies enough for what is queued gets all of it, if all is flushed. */
  lemma AllIsRead(s: State, pid: int, resumes: bool, room: nat, copies: nat)
    requires Tidy(s) && s.packets != [] && AllFlushed(s.packets)
    requires LengthAll(s.packets) <= room && |s.packets| <= copies
    ensures var (status, t, got) := ReadBy(s, pid, resumes, room, copies);
            status == Ok && got == Items(s.packets) && t.packets == []
  {
    CountAll(s.packets, room, copies);
    CountAll(s.packets, room, |s.packets|);
    ReadStatusExactly(s, pid, resumes, room, copies);
    var prev, t, k := ReadIs(s, pid, resumes, room, copies);
    TakeAll(s.packets);
    CompletedPackets(TakenAll(t, |s.packets|), prev);
  }

  /** A message that was sent with the flush flag is there for the next reader, together with all that
      was sent before it. */
  lemma FlushedIsRead(s: State, item: Item, luck: Luck, pid: int, resumes: bool, room: nat, copies: nat)
    requires Tidy(s) && Sent(s, item, true, luck).0 == Ok
    requires var t := Sent(s, item, true, luck).1; LengthAll(t.packets) <= room && |t.packets| <= copies
    ensures var (status, v, got) := ReadBy(Sent(s, item, true, luck).1, pid, resumes, room, copies);
            status == Ok && got == Items(s.packets) + [item] && v.packets == []
  {
    FlushedAll(s, item, luck);
    SentTidy(s, item, true, luck);
    SentItems(s, item, true, luck);
    AllIsRead(Sent(s, item, true, luck).1, pid, resumes, room, copies);
  }

  lemma {:induction false} CompletedPackets(s: State, ps: seq<Pack>)
    requires s.free <= 12
    ensures var t := Completed(s, ps);
            && t.packets == s.packets && t.prev == s.prev && t.dispatcher == s.dispatcher
            && t.free == if s.free + |ps| > 12 then 12 else s.free + |ps|
    decreases |ps|
  {
    if ps == [] {
    } else {
      CompletedPackets(s.(ran := s.ran + Calls(ps[0].items), free := Put(s.free)), ps[1..]);
    }
  }

  /** A sender waits only for a queue of more than ten packets, and then only if it is not the kernel or the
      master, not the reader itself, and does not say that it leaves. */
  lemma WaitsExactly(s: State, sender: int, pid: int, kind: int)
    ensures |s.packets| <= 10 || sender == 0 || sender == 1 || pid == s.dispatcher || kind == 5
            <==> !MustWait(s, sender, pid, kind)
  {
  }

  // Whole runs.

  /** A send that need not wait, or a read, with its environment. */
  datatype Event =
    | Send(item: Item, flush: bool, luck: Luck)
    | Read(pid: int, resumes: bool, room: nat, copies: nat)

  /** The queue together with its history: what was sent successfully, what left the
      queue, the bytes that successful reads returned, and what failed reads took. */
  datatype World = World(s: State, sent: seq<Item>, taken: seq<Item>, bytes: seq<Byte>, lost: nat)

  const INIT := World(State([], [], 0, 0, []), [], [], [], 0)

  ghost predicate Legal(e: Event) {
    e.Send? ==> e.item.m.Fits()
  }

  /** What a read takes off the queue. */
  function Got(w: World, e: Event): seq<Item> {
    match e
    case Send(_, _, _) => []
    case Read(pid, resumes, room, copies) => ReadBy(w.s, pid, resumes, room, copies).2
  }

  ghost function Step(w: World, e: Event): World {
    match e
    case Send(item, flush, luck) =>
      var (status, t) := Sent(w.s, item, flush, luck);
      w.(s := t, sent := if status == Ok then w.sent + [item] else w.sent)
    case Read(pid, resumes, room, copies) =>
      var (status, t, got) := ReadBy(w.s, pid, resumes, room, copies);
      World(t, w.sent, w.taken + got,
            if status == Ok then w.bytes + EncodeAll(Bodies(got)) else w.bytes,
            if status == Ok then w.lost else w.lost + |got|)
  }

  /** Nothing is lost or duplicated inside the queue, and exactly the callbacks of what
      left it have been run, in order, or wait for the next read. */
  ghost predicate Inv(w: World) {
    && Tidy(w.s)
    && AllFit(Bodies(w.sent))
    && w.sent == w.taken + Items(w.s.packets)
    && Calls(w.taken) == w.s.ran + Calls(Items(w.s.prev))
    && (w.lost == 0 ==> w.bytes == EncodeAll(Bodies(w.taken)))
  }

  /** What a read is: some packets are taken, and then the previous ones are completed. */
  lemma ReadIs(s: State, pid: int, resumes: bool, room: nat, copies: nat) returns (prev: seq<Pack>, t: State, k: nat)
    ensures prev == (if resumes then [] else s.prev) && t == if resumes then s else s.(dispatcher := pid, prev := [])
    ensures k <= |s.packets|
    ensures ReadBy(s, pid, resumes, room, copies).1 == Completed(TakenAll(t, k), prev)
    ensures ReadBy(s, pid, resumes, room, copies).2 == Items(s.packets[..k])
  {
    prev := if resumes then [] else s.prev;
    t := if resumes then s else s.(dispatcher := pid, prev := []);
    k := if Ready(t) then Count(t.packets, room, copies) else 0;
  }

  /** What a read does, in the terms of the invariant. */
  lemma ReadKeeps(s: State, pid: int, resumes: bool, room: nat, copies: nat)
    requires Tidy(s)
    ensures var (status, t, got) := ReadBy(s, pid, resumes, room, copies);
            && Tidy(t) && t.dispatcher == (if resumes then s.dispatcher else pid)
            && Items(s.packets) == got + Items(t.packets)
            && t.ran == s.ran + (if resumes then [] else Calls(Items(s.prev)))
            && t.ran + Calls(Items(t.prev)) == s.ran + Calls(Items(s.prev)) + Calls(got)
  {
    var prev, t, k := ReadIs(s, pid, resumes, room, copies);
    SplitItems(s.packets, k);
    DropInOrder(s.packets, k);
    CompletedKeeps(TakenAll(t, k), prev);
    ReadCalls(s, t, prev, k);
  }

  lemma ReadCalls(s: State, t: State, prev: seq<Pack>, k: nat)
    requires k <= |s.packets| && t.packets == s.packets
    requires (prev == [] && t.prev == s.prev) || (prev == s.prev && t.prev == [])
    ensures s.ran + Calls(Items(prev)) + Calls(Items(TakenAll(t, k).prev))
         == s.ran + Calls(Items(s.prev)) + Calls(Items(s.packets[..k]))
  {
    TakenAllCalls(t, k);
    assert Items([]) == [] && Calls([]) == [];
    Associates(s.ran, Calls(Items(s.prev)), Calls(Items(s.packets[..k])));
  }

  lemma SentFit(items: seq<Item>, item: Item)
    requires AllFit(Bodies(items)) && item.m.Fits()
    ensures AllFit(Bodies(items + [item]))
  {
    BodiesLast(items, item);
  }

  lemma SendKeepsInv(w: World, e: Event)
    requires Inv(w) && Legal(e) && e.Send?
    ensures Inv(Step(w, e))
  {
    SentTidy(w.s, e.item, e.flush, e.luck);
    SentItems(w.s, e.item, e.flush, e.luck);
    SentFit(w.sent, e.item);
    Associates(w.taken, Items(w.s.packets), [e.item]);
  }

  lemma ReadKeepsInv(w: World, e: Event)
    requires Inv(w) && e.Read?
    ensures Inv(Step(w, e))
  {
    ReadKeeps(w.s, e.pid, e.resumes, e.room, e.copies);
    var (_, t, got) := ReadBy(w.s, e.pid, e.resumes, e.room, e.copies);
    Associates(w.taken, got, Items(t.packets));
    BodiesAppend(w.taken, got);
    EncodeAllAppend(Bodies(w.taken), Bodies(got));
    assert Bodies([]) == [] && EncodeAll([]) == [];
  }

  lemma StepKeepsInv(w: World, e: Event)
    requires Inv(w) && Legal(e)
    ensures Inv(Step(w, e))
  {
    if e.Send? {
      SendKeepsInv(w, e);
    } else {
      ReadKeepsInv(w, e);
    }
  }

  ghost predicate StepAt(ws: seq<World>, es: seq<Event>, i: nat)
    requires i < |es| < |ws|
  {
    Legal(es[i]) && ws[i + 1] == Step(ws[i], es[i])
  }

  ghost predicate IsRun(ws: seq<World>, es: seq<Event>) {
    |ws| == |es| + 1 && ws[0] == INIT && forall i :: 0 <= i < |es| ==> StepAt(ws, es, i)
  }

  lemma {:induction false} RunKeepsInv(ws: seq<World>, es: seq<Event>, i: nat)
    requires IsRun(ws, es) && i <= |es|
    ensures Inv(ws[i])
  {
    if i == 0 {
      assert AllFit(Bodies([]));
    } else {
      RunKeepsInv(ws, es, i - 1);
      assert StepAt(ws, es, i - 1);
      StepKeepsInv(ws[i - 1], es[i - 1]);
    }
  }

  /** The sender of an event: its fusion id and its thread. */
  datatype Sender = Sender(fid: int, pid: int)

  /** Neither the kernel nor the master, nor the reader, and it does not leave. */
  predicate Ordinary(w: World, e: Event, from: Sender) {
    e.Send? && from.fid != 0 && from.fid != MASTER && from.pid != w.s.dispatcher && e.item.m.kind != LEAVE
  }

  /** If ordinary senders send only when they need not wait, and nobody else sends, the queue never holds
      more than eleven packets. */
  lemma {:induction false} QueueStaysShort(ws: seq<World>, es: seq<Event>, from: seq<Sender>, i: nat)
    requires IsRun(ws, es) && |from| == |es| && i <= |es|
    requires forall m :: 0 <= m < i && es[m].Send? ==>
               Ordinary(ws[m], es[m], from[m]) && !MustWait(ws[m].s, from[m].fid, from[m].pid, es[m].item.m.kind)
    ensures |ws[i].s.packets| <= 11
  {
    if i == 0 {
    } else {
      QueueStaysShort(ws, es, from, i - 1);
      assert StepAt(ws, es, i - 1);
      match es[i - 1]
      case Send(item, flush, luck) => PlacedExactly(ws[i - 1].s, HEADER + |item.m.data|, luck.noPacket);
      case Read(pid, resumes, room, copies) =>
        RunKeepsInv(ws, es, i - 1);
        ReadShortens(ws[i - 1].s, pid, resumes, room, copies);
    }
  }

  lemma ReadShortens(s: State, pid: int, resumes: bool, room: nat, copies: nat)
    requires s.free <= 12
    ensures |ReadBy(s, pid, resumes, room, copies).1.packets| <= |s.packets|
  {
    var prev, t, k := ReadIs(s, pid, resumes, room, copies);
    CompletedPackets(TakenAll(t, k), prev);
  }

  /** Packets are not lost: every packet taken waits with its callbacks or is free again, those that
      waited are free, and no more than twelve are kept. */
  lemma ReadFrees(s: State, pid: int, resumes: bool, room: nat, copies: nat, k: nat)
    requires s.free <= 12 && k == (if Ready(s) then Count(s.packets, room, copies) else 0)
    ensures var t := ReadBy(s, pid, resumes, room, copies).1;
            var idle, waiting := Idle(s.packets[..k]), if resumes then [] else s.prev;
            && t.packets == s.packets[k..]
            && |t.prev| == (if resumes then |s.prev| else 0) + k - idle
            && t.free == (if s.free + idle + |waiting| > 12 then 12 else s.free + idle + |waiting|)
  {
    var prev, u, n := ReadIs(s, pid, resumes, room, copies);
    TakenFrees(u, k);
    CompletedPackets(TakenAll(u, k), prev);
  }

  /** How many packets carry no callback. */
  function Idle(ps: seq<Pack>): nat {
    if ps == [] then 0 else (if Calls(ps[0].items) == [] then 1 else 0) + Idle(ps[1..])
  }

  lemma {:induction false} TakenFrees(s: State, k: nat)
    requires s.free <= 12 && k <= |s.packets|
    ensures var t, idle := TakenAll(s, k), Idle(s.packets[..k]);
            && t.free == (if s.free + idle > 12 then 12 else s.free + idle)
            && |t.prev| == |s.prev| + k - idle
    decreases k
  {
    if k == 0 {
      assert s.packets[..0] == [];
    } else {
      TakenFrees(Taken(s), k - 1);
      assert TakenAll(s, k) == TakenAll(Taken(s), k - 1);
      assert s.packets[..k][1..] == Taken(s).packets[..k - 1];
    }
  }

  /** A copy of the read will fail, but not the first: seen before the read, its buffer has room for
      more packets than can be copied, and at least one can. */
  predicate Loses(s: State, e: Event) {
    e.Read? && Ready(s) && 0 < e.copies < Count(s.packets, e.room, |s.packets|)
  }

  /** A read fails with a fault exactly when it would deliver more packets than can be copied. */
  lemma {:induction false} FaultExactly(ps: seq<Pack>, room: nat, copies: nat, written: nat)
    ensures Outcome(ps, room, copies, written) == Efault <==> copies < Count(ps, room, |ps|)
    ensures Count(ps, room, copies) == if copies < Count(ps, room, |ps|) then copies else Count(ps, room, |ps|)
  {
    if ps == [] || !ps[0].flush || Length(ps[0]) > room {
    } else if copies > 0 {
      FaultExactly(ps[1..], room - Length(ps[0]), copies - 1, written + Length(ps[0]));
    }
  }

  /** Messages get lost exactly by such reads, and then all that was copied before the fault. */
  lemma LossExactly(w: World, e: Event)
    requires Inv(w) && e.Read?
    ensures Loses(w.s, e) ==> e.copies <= |w.s.packets|
    ensures Step(w, e).lost == w.lost + if Loses(w.s, e) then |Items(w.s.packets[..e.copies])| else 0
    ensures Step(w, e).lost > w.lost <==> Loses(w.s, e)
  {
    var ps := w.s.packets;
    FaultExactly(ps, e.room, e.copies, 0);
    OutcomeIs(ps, e.room, e.copies, 0);
    if Ready(w.s) && e.copies == 0 {
      assert Items(ps[..0]) == [];
    }
    if Loses(w.s, e) {
      assert ps[..e.copies][0] == ps[0];
    }
  }

  /** No read before step `i` lost anything. */
  ghost predicate Lossless(ws: seq<World>, es: seq<Event>, i: nat)
    requires i <= |es| <= |ws|
  {
    forall m :: 0 <= m < i ==> !Loses(ws[m].s, es[m])
  }

  lemma {:induction false} NothingLost(ws: seq<World>, es: seq<Event>, i: nat)
    requires IsRun(ws, es) && i <= |es|
    ensures ws[i].lost == 0 <==> Lossless(ws, es, i)
  {
    if i == 0 {
    } else {
      NothingLost(ws, es, i - 1);
      RunKeepsInv(ws, es, i - 1);
      assert StepAt(ws, es, i - 1);
      LostHere(ws[i - 1], es[i - 1]);
      LosslessNext(ws, es, i - 1);
    }
  }

  lemma LosslessNext(ws: seq<World>, es: seq<Event>, i: nat)
    requires i < |es| <= |ws|
    ensures Lossless(ws, es, i + 1) <==> Lossless(ws, es, i) && !Loses(ws[i].s, es[i])
  {
  }

  lemma LostHere(w: World, e: Event)
    requires Inv(w)
    ensures Step(w, e).lost == 0 <==> w.lost == 0 && !Loses(w.s, e)
  {
    if e.Read? {
      LossExactly(w, e);
    }
  }

  /** End to end: over any run of sends and reads none of which loses messages, what the readers
      parse and what is still queued are together exactly the messages sent, in order. */
  lemma DeliveredInOrder(ws: seq<World>, es: seq<Event>, i: nat)
    requires IsRun(ws, es) && i <= |es| && Lossless(ws, es, i)
    ensures Parse(ws[i].bytes) + Bodies(Items(ws[i].s.packets)) == Bodies(ws[i].sent)
  {
    RunKeepsInv(ws, es, i);
    NothingLost(ws, es, i);
    var w := ws[i];
    BodiesAppend(w.taken, Items(w.s.packets));
    assert forall k :: 0 <= k < |w.taken| ==> Bodies(w.sent)[k] == Bodies(w.taken)[k];
    ParseEncodeAll(Bodies(w.taken));
  }

  // A run that loses a message.

  const NO_LUCK := Luck(false, false, false)

  /** A message that fills a packet, and one that needs another. */
  function Big(): (m: Message)
    ensures m.Fits() && HEADER + |m.data| == MAX_PACKET == Size(m)
  {
    Message(0, 0, 0, seq(MAX_PACKET - HEADER, _ => 0))
  }

  const SMALL := Message(0, 0, 0, [])

  lemma OneBody(item: Item)
    ensures Bodies([item]) == [item.m] && Calls([item]) == if item.Calling? then [item.callback] else []
  {
    assert [item][..0] == [];
    assert Bodies([]) == [] && Calls([]) == [];
  }

  lemma OneLength(item: Item, flush: bool)
    ensures Length(Pack([item], flush)) == Size(item.m)
  {
    OneBody(item);
    assert [item.m][..0] == [];
    assert SizeAll([]) == 0;
  }

  lemma OnePack(p: Pack)
    ensures Items([p]) == p.items
  {
    assert [p][1..] == [];
    assert p.items + [] == p.items;
  }

  lemma AppendedToNew(ps: seq<Pack>, item: Item)
    ensures Appended(ps + [Pack([], false)], item, true) == ps + [Pack([item], true)]
  {
    var more := ps + [Pack([], false)];
    assert more[..|more| - 1] == ps && Last(more) == Pack([], false);
    assert [] + [item] == [item];
  }

  /** A message that has no room in the last packet goes to a new one. */
  lemma SentToNew(s: State, m: Message)
    requires s.free == 0 && HEADER + |m.data| <= MAX_PACKET
    requires s.packets != [] ==> Last(s.packets).flush && Length(Last(s.packets)) + HEADER + |m.data| > MAX_PACKET
    ensures Sent(s, Plain(m), true, NO_LUCK) == (Ok, s.(packets := s.packets + [Pack([Plain(m)], true)]))
  {
    AppendedToNew(s.packets, Plain(m));
    if s.packets != [] {
      SplitLast(s.packets);
      assert Flushed(s.packets) == s.packets;
    } else {
      assert s.packets + [Pack([], false)] == [Pack([], false)];
    }
  }

  /** Two packets with a message each, and a read whose second copy fails: the first packet is
      gone, and nobody has seen it. */
  lemma FailingRead(s: State, a: Pack, b: Pack)
    requires s.packets == [a, b] && a.flush && b.flush && s.prev == [] && s.free == 0
    requires Length(a) <= MAX_PACKET && Length(b) <= MAX_PACKET && Calls(a.items) == []
    ensures Loses(s, Read(1, false, 2 * MAX_PACKET, 1))
    ensures ReadBy(s, 1, false, 2 * MAX_PACKET, 1) == (Efault, s.(packets := [b], dispatcher := 1, free := 1), a.items)
  {
    assert s.packets[1..] == [b] && [b][1..] == [];
    CountTwo(a, b);
    var t := s.(dispatcher := 1, prev := []);
    TakenOne(t, a, b);
    assert s.packets[..1] == [a];
    OnePack(a);
  }

  lemma CountTwo(a: Pack, b: Pack)
    requires a.flush && b.flush && Length(a) <= MAX_PACKET && Length(b) <= MAX_PACKET
    ensures Count([a, b], 2 * MAX_PACKET, 2) == 2 && Count([a, b], 2 * MAX_PACKET, 1) == 1
    ensures Outcome([a, b], 2 * MAX_PACKET, 1, 0) == Efault
  {
    assert [a, b][1..] == [b] && [b][1..] == [];
    FaultExactly([a, b], 2 * MAX_PACKET, 1, 0);
  }

  lemma TakenOne(t: State, a: Pack, b: Pack)
    requires t.packets == [a, b] && Calls(a.items) == [] && t.free == 0
    ensures TakenAll(t, 1) == t.(packets := [b], free := 1)
  {
    assert t.packets[1..] == [b];
    assert TakenAll(t, 1) == TakenAll(Taken(t), 0);
  }

  /** Two messages that do not fit into one packet. */
  predicate Apart(m: Message, n: Message) {
    && m.Fits() && n.Fits()
    && HEADER + |m.data| <= MAX_PACKET && HEADER + |n.data| <= MAX_PACKET
    && Size(m) + HEADER + |n.data| > MAX_PACKET
  }

  function OneSent(m: Message): World {
    World(INIT.s.(packets := [Pack([Plain(m)], true)]), [Plain(m)], [], [], 0)
  }

  function BothSent(m: Message, n: Message): World {
    World(INIT.s.(packets := [Pack([Plain(m)], true), Pack([Plain(n)], true)]), [Plain(m), Plain(n)], [], [], 0)
  }

  lemma AfterFirst(m: Message)
    requires HEADER + |m.data| <= MAX_PACKET
    ensures Step(INIT, Send(Plain(m), true, NO_LUCK)) == OneSent(m)
  {
    SentToNew(INIT.s, m);
  }

  lemma AfterSecond(m: Message, n: Message)
    requires Apart(m, n)
    ensures Step(OneSent(m), Send(Plain(n), true, NO_LUCK)) == BothSent(m, n)
  {
    OneLength(Plain(m), true);
    SentToNew(OneSent(m).s, n);
  }

  lemma FaultStep(v: World, e: Event, t: State, got: seq<Item>)
    requires e.Read? && ReadBy(v.s, e.pid, e.resumes, e.room, e.copies) == (Efault, t, got)
    ensures Step(v, e) == World(t, v.sent, v.taken + got, v.bytes, v.lost + |got|)
  {
  }

  const FAULTY := Read(1, false, 2 * MAX_PACKET, 1)

  lemma AfterRead(m: Message, n: Message)
    requires Apart(m, n)
    ensures Loses(BothSent(m, n).s, FAULTY)
    ensures var w := Step(BothSent(m, n), FAULTY);
            w.sent == [Plain(m), Plain(n)] && w.bytes == [] && Items(w.s.packets) == [Plain(n)]
  {
    var a, b, v := Pack([Plain(m)], true), Pack([Plain(n)], true), BothSent(m, n);
    LengthsFit(m);
    LengthsFit(n);
    FailingRead(v.s, a, b);
    FaultStep(v, FAULTY, v.s.(packets := [b], dispatcher := 1, free := 1), a.items);
    OnePack(b);
  }

  lemma LengthsFit(m: Message)
    requires HEADER + |m.data| <= MAX_PACKET
    ensures Length(Pack([Plain(m)], true)) <= MAX_PACKET && Calls([Plain(m)]) == []
  {
    OneBody(Plain(m));
    OneLength(Plain(m), true);
  }

  /** From the beginning, two messages are sent and one read fails in its second copy: the first
      message is then neither in what readers got nor in the queue. */
  lemma LosingRun(m: Message, n: Message)
    requires Apart(m, n)
    ensures Step(INIT, Send(Plain(m), true, NO_LUCK)) == OneSent(m)
    ensures Step(OneSent(m), Send(Plain(n), true, NO_LUCK)) == BothSent(m, n)
    ensures Loses(BothSent(m, n).s, FAULTY)
    ensures var w := Step(BothSent(m, n), FAULTY);
            w.sent == [Plain(m), Plain(n)] && w.bytes == [] && Items(w.s.packets) == [Plain(n)]
  {
    AfterFirst(m);
    AfterSecond(m, n);
    AfterRead(m, n);
  }

  /** There are such messages. */
  lemma BigAndSmall()
    ensures Apart(Big(), SMALL)
  {
  }

  /** A reader sees a fault only when all allowed copies were made, and complains about
      the size only when it got nothing. */
  lemma {:induction false} OutcomeIs(ps: seq<Pack>, room: nat, copies: nat, written: nat)
    requires InOrder(ps)
    ensures Outcome(ps, room, copies, written) in {Ok, Emsgsize, Efault}
    ensures Outcome(ps, room, copies, written) == Efault ==> Count(ps, room, copies) == copies
    ensures Outcome(ps, room, copies, written) == Emsgsize ==> Count(ps, room, copies) == written == 0
  {
    if ps == [] || !ps[0].flush || Length(ps[0]) > room || copies == 0 {
    } else {
      SomeLength(ps[0]);
      DropInOrder(ps, 1);
      OutcomeIs(ps[1..], room - Length(ps[0]), copies - 1, written + Length(ps[0]));
    }
  }

  lemma SomeLength(p: Pack)
    requires p.items != []
    ensures Length(p) > 0
  {
    SplitLast(p.items);
    BodiesLast(p.items[..|p.items| - 1], p.items[|p.items| - 1]);
    SizeAllLast(Bodies(p.items[..|p.items| - 1]), p.items[|p.items| - 1].m);
  }

  /** Whatever its outcome, a read leaves no callback of an earlier read outstanding, and
      runs none of its own: each is run once, in order, by the read that follows. */
  lemma CallbacksRunOnNextRead(ws: seq<World>, es: seq<Event>, i: nat)
    requires IsRun(ws, es) && i < |es|
    ensures es[i].Read? && !es[i].resumes ==> ws[i + 1].s.ran == Calls(ws[i].taken)
    ensures es[i].Send? || (es[i].Read? && es[i].resumes) ==> ws[i + 1].s.ran == ws[i].s.ran
  {
    RunKeepsInv(ws, es, i);
    assert StepAt(ws, es, i);
    match es[i]
    case Send(item, flush, luck) => SentItems(ws[i].s, item, flush, luck);
    case Read(pid, resumes, room, copies) => ReadKeeps(ws[i].s, pid, resumes, room, copies);
  }
}
