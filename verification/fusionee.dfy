/** The queue operations of fusionee.c on packet objects, each proved to do what module
    `Pipeline` says. */
module Fusionees {
  import opened Errno
  import opened Messages
  import opened Sequences
  import opened Pipeline
  import opened Packets

  // The packet objects and what each of them holds.

  datatype Store = Store(holds: map<Packet, Content>, owner: map<array<Byte>, Packet>, objects: set<object>)

  /** Every packet holds what the store says, in a buffer of its own. */
  ghost predicate Stored(s: Store)
    reads s.objects
  {
    && (forall p :: p in s.holds ==> p in s.objects && p.buf in s.objects)
    && (forall p {:trigger p.Holds(s.holds[p])} :: p in s.holds ==> p.Holds(s.holds[p]))
    && (forall p {:trigger p.buf} :: p in s.holds ==> p.buf in s.owner && s.owner[p.buf] == p)
  }

  ghost function Holding(s: Store, p: Packet, c: Content): (t: Store)
    ensures t.objects == s.objects
  {
    s.(holds := s.holds[p := c])
  }

  method SetFlush(p: Packet, ghost s: Store)
    requires p in s.holds && Stored(s)
    modifies p`flush
    ensures Stored(Holding(s, p, s.holds[p].(flush := true)))
  {
    assert p.Holds(s.holds[p]);
    p.flush := true;
  }

  /** Empties a packet that is put back. */
  method Reset(p: Packet, ghost s: Store)
    requires p in s.holds && Stored(s)
    modifies p`size, p`flush, p`callbacks
    ensures Stored(Holding(s, p, Content([], false, [])))
  {
    assert p.Holds(s.holds[p]);
    p.size, p.flush, p.callbacks := 0, false, [];
  }

  method Fill(p: Packet, kind: int, id: int, channel: int, data: seq<Byte>, extra: seq<Byte>,
              callback: Callback, flush: bool, luck: Luck, ghost s: Store) returns (status: Status)
    requires p in s.holds && Stored(s)
    requires |s.holds[p].bytes| % 4 == 0 && |s.holds[p].bytes| + HEADER + |data| + |extra| <= MAX_PACKET
    modifies p, p.buf
    ensures status == (if luck.copyFails then Efault else if callback.func != 0 && luck.noCallback then Enomem else Ok)
    ensures Stored(Holding(s, p, Added(s.holds[p], Message(kind, id, channel, data + extra), callback, flush, status)))
  {
    assert p.Holds(s.holds[p]);
    status := p.Add(kind, id, channel, data, extra, callback, flush, luck, s.holds[p]);
  }

  /** A new packet of its own. */
  method Allocate(ghost s: Store) returns (p: Packet, ghost t: Store)
    requires Stored(s)
    ensures fresh(p) && fresh(p.buf) && p !in s.holds
    ensures t == Store(s.holds[p := Content([], false, [])], s.owner[p.buf := p], s.objects + {p, p.buf})
    ensures Stored(t)
  {
    p := new Packet();
    t := Store(s.holds[p := Content([], false, [])], s.owner[p.buf := p], s.objects + {p, p.buf});
  }

  lemma Forgotten(s: Store, p: Packet)
    requires Stored(s)
    ensures Stored(s.(holds := s.holds - {p}))
  {
    forall q | q in s.holds && q != p
      ensures q.Holds(s.holds[q])
    {
    }
  }

  // Where the packets are, and what they mean.

  /** The queue, those waiting for the next read, the free ones, and those in the hands of
      the reader at work. */
  datatype Places = Places(packets: seq<Packet>, prev: seq<Packet>, free: seq<Packet>, local: seq<Packet>)

  ghost function Times(ps: seq<Packet>, p: Packet): nat {
    multiset(ps)[p]
  }

  ghost function Uses(l: Places, p: Packet): nat {
    Times(l.packets, p) + Times(l.prev, p) + Times(l.free, p) + Times(l.local, p)
  }

  function Image(p: Pack): Content {
    Content(EncodeAll(Bodies(p.items)), p.flush, Calls(p.items))
  }

  /** Each packet is in one place, and its bytes are the encoding of what it means. */
  ghost predicate Kept(l: Places, means: map<Packet, Pack>, holds: map<Packet, Content>) {
    && (forall p {:trigger Uses(l, p)} :: p in means ==> Uses(l, p) == 1)
    && (forall p :: p in l.packets ==> p in means)
    && (forall p :: p in l.prev ==> p in means)
    && (forall p :: p in l.free ==> p in means)
    && (forall p :: p in l.local ==> p in means)
    && means.Keys == holds.Keys
    && (forall p {:trigger Image(means[p])} :: p in means ==> holds[p] == Image(means[p]))
    && (forall p :: p in l.free ==> means[p] == Pack([], false))
  }

  ghost function Packs(ps: seq<Packet>, means: map<Packet, Pack>): (qs: seq<Pack>)
    ensures |qs| == |ps|
  {
    if ps == [] then []
    else
      var p := ps[|ps| - 1];
      Packs(ps[..|ps| - 1], means) + [if p in means then means[p] else Pack([], false)]
  }

  lemma {:induction false} PacksSame(ps: seq<Packet>, means: map<Packet, Pack>, means': map<Packet, Pack>)
    requires forall p :: p in ps ==> p in means && p in means' && means'[p] == means[p]
    ensures Packs(ps, means') == Packs(ps, means)
  {
    if ps == [] {
    } else {
      PacksSame(ps[..|ps| - 1], means, means');
    }
  }

  lemma PacksLast(ps: seq<Packet>, p: Packet, means: map<Packet, Pack>)
    requires p in means
    ensures Packs(ps + [p], means) == Packs(ps, means) + [means[p]]
  {
    assert (ps + [p])[..|ps + [p]| - 1] == ps;
  }

  lemma {:induction false} PacksFirst(ps: seq<Packet>, means: map<Packet, Pack>)
    requires ps != [] && ps[0] in means
    ensures Packs(ps, means) == [means[ps[0]]] + Packs(ps[1..], means)
  {
    if |ps| > 1 {
      var init := ps[..|ps| - 1];
      PacksFirst(init, means);
      assert init[1..] == ps[1..][..|ps[1..]| - 1];
    } else {
      assert ps[..0] == [] && ps[1..] == [];
    }
  }

  lemma TimesAppend(a: seq<Packet>, b: seq<Packet>, p: Packet)
    ensures Times(a + b, p) == Times(a, p) + Times(b, p)
  {
  }

  lemma TimesOne(q: Packet, p: Packet)
    ensures Times([q], p) == if p == q then 1 else 0
  {
  }

  lemma TimesIn(ps: seq<Packet>, p: Packet)
    ensures p in ps <==> Times(ps, p) > 0
  {
  }

  lemma TimesLast(ps: seq<Packet>, q: Packet, p: Packet)
    ensures Times(ps + [q], p) == Times(ps, p) + if p == q then 1 else 0
  {
    TimesAppend(ps, [q], p);
    TimesOne(q, p);
  }

  lemma TimesFirst(ps: seq<Packet>, p: Packet)
    requires ps != []
    ensures Times(ps, p) == (if p == ps[0] then 1 else 0) + Times(ps[1..], p)
  {
    DropFirst(ps);
    TimesAppend([ps[0]], ps[1..], p);
    TimesOne(ps[0], p);
  }

  /** The last packet of the queue is nowhere else. */
  lemma LastAlone(l: Places, means: map<Packet, Pack>, holds: map<Packet, Content>)
    requires l.packets != [] && Kept(l, means, holds)
    ensures var p := l.packets[|l.packets| - 1];
            p in means && p !in l.packets[..|l.packets| - 1] && p !in l.prev && p !in l.free && p !in l.local
  {
    var init, p := l.packets[..|l.packets| - 1], l.packets[|l.packets| - 1];
    SplitLast(l.packets);
    TimesLast(init, p, p);
    assert p in l.packets && Uses(l, p) == 1;
    TimesIn(init, p);
    TimesIn(l.prev, p);
    TimesIn(l.free, p);
    TimesIn(l.local, p);
  }

  /** Changing what one packet means, outside the free ones. */
  lemma KeptChange(l: Places, means: map<Packet, Pack>, holds: map<Packet, Content>, p: Packet, v: Pack)
    requires Kept(l, means, holds) && p in means && p !in l.free
    ensures Kept(l, means[p := v], holds[p := Image(v)])
  {
    forall q | q in means
      ensures Uses(l, q) == 1
      ensures q != p ==> holds[q] == Image(means[q])
    {
      assert q != p ==> holds[q] == Image(means[q]);
    }
  }

  /** Changing what the last packet means. */
  lemma KeptLast(l: Places, means: map<Packet, Pack>, holds: map<Packet, Content>, v: Pack)
    requires l.packets != [] && Kept(l, means, holds)
    ensures var p := l.packets[|l.packets| - 1];
            && p in means && holds[p] == Image(means[p]) && means[p] == Last(Packs(l.packets, means))
            && Kept(l, means[p := v], holds[p := Image(v)])
            && Packs(l.packets, means[p := v]) == Packs(l.packets, means)[..|l.packets| - 1] + [v]
            && Packs(l.prev, means[p := v]) == Packs(l.prev, means)
  {
    var p := l.packets[|l.packets| - 1];
    LastAlone(l, means, holds);
    KeptChange(l, means, holds, p, v);
    PacksSame(l.packets[..|l.packets| - 1], means, means[p := v]);
    PacksSame(l.prev, means, means[p := v]);
    assert holds[p] == Image(means[p]);
  }

  /** Packets changing places. */
  lemma KeptMoved(l: Places, l': Places, means: map<Packet, Pack>, holds: map<Packet, Content>)
    requires Kept(l, means, holds)
    requires forall p :: p in means ==> Uses(l', p) == Uses(l, p)
    requires forall p :: p in l'.packets ==> p in means
    requires forall p :: p in l'.prev ==> p in means
    requires forall p :: p in l'.free ==> p in l.free
    requires forall p :: p in l'.local ==> p in means
    ensures Kept(l', means, holds)
  {
  }

  lemma TakeFree(l: Places, means: map<Packet, Pack>, holds: map<Packet, Content>)
    requires l.free != [] && Kept(l, means, holds)
    ensures Kept(Places(l.packets + [l.free[0]], l.prev, l.free[1..], l.local), means, holds)
    ensures Packs(l.packets + [l.free[0]], means) == Packs(l.packets, means) + [Pack([], false)]
  {
    var p := l.free[0];
    var l' := Places(l.packets + [p], l.prev, l.free[1..], l.local);
    forall q | q in means
      ensures Uses(l', q) == Uses(l, q)
    {
      TimesLast(l.packets, p, q);
      TimesFirst(l.free, q);
    }
    PacksLast(l.packets, p, means);
    KeptMoved(l, l', means, holds);
  }

  lemma EmptyImage()
    ensures Image(Pack([], false)) == Content([], false, [])
  {
  }

  lemma AddNew(l: Places, means: map<Packet, Pack>, holds: map<Packet, Content>, p: Packet)
    requires Kept(l, means, holds) && p !in means
    ensures Kept(Places(l.packets + [p], l.prev, l.free, l.local), means[p := Pack([], false)], holds[p :=
            Image(Pack([], false))])
    ensures Packs(l.packets + [p], means[p := Pack([], false)]) == Packs(l.packets, means) + [Pack([], false)]
    ensures Packs(l.prev, means[p := Pack([], false)]) == Packs(l.prev, means)
  {
    var means' := means[p := Pack([], false)];
    var l' := Places(l.packets + [p], l.prev, l.free, l.local);
    forall q | q in means'
      ensures Uses(l', q) == 1
    {
      TimesLast(l.packets, p, q);
      if q == p {
        TimesIn(l.packets, p);
        TimesIn(l.prev, p);
        TimesIn(l.free, p);
        TimesIn(l.local, p);
      } else {
        assert Uses(l, q) == 1;
      }
    }
    KeptMore(l, l', means, holds, p);
    PacksSame(l.packets, means, means');
    PacksSame(l.prev, means, means');
    PacksLast(l.packets, p, means');
  }

  lemma KeptMore(l: Places, l': Places, means: map<Packet, Pack>, holds: map<Packet, Content>, p: Packet)
    requires Kept(l, means, holds) && p !in means && l' == l.(packets := l.packets + [p])
    requires forall q :: q in means[p := Pack([], false)] ==> Uses(l', q) == 1
    ensures Kept(l', means[p := Pack([], false)], holds[p := Image(Pack([], false))])
  {
    var means', holds' := means[p := Pack([], false)], holds[p := Image(Pack([], false))];
    assert means'.Keys == means.Keys + {p} && holds'.Keys == holds.Keys + {p};
    forall q | q in means'
      ensures holds'[q] == Image(means'[q])
    {
      MoreImages(l, means, holds, p, q);
    }
  }

  lemma MoreImages(l: Places, means: map<Packet, Pack>, holds: map<Packet, Content>, p: Packet, q: Packet)
    requires Kept(l, means, holds) && p !in means && (q == p || q in means)
    ensures q == p || q in holds
    ensures holds[p := Image(Pack([], false))][q] == Image(means[p := Pack([], false)][q])
  {
    if q != p {
      assert holds[q] == Image(means[q]);
    }
  }

  /** The first packet of the queue is delivered and waits for the next read. */
  lemma FirstToPrev(l: Places, means: map<Packet, Pack>, holds: map<Packet, Content>)
    requires l.packets != [] && Kept(l, means, holds)
    ensures Kept(Places(l.packets[1..], l.prev + [l.packets[0]], l.free, l.local), means, holds)
    ensures l.packets[0] in means && Packs(l.prev + [l.packets[0]], means)
            == Packs(l.prev, means) + [means[l.packets[0]]]
  {
    var p := l.packets[0];
    var l' := Places(l.packets[1..], l.prev + [p], l.free, l.local);
    forall q | q in means
      ensures Uses(l', q) == Uses(l, q)
    {
      TimesLast(l.prev, p, q);
      TimesFirst(l.packets, q);
    }
    KeptMoved(l, l', means, holds);
    PacksLast(l.prev, p, means);
  }

  /** It is delivered and goes into the reader's hands. */
  lemma FirstToLocal(l: Places, means: map<Packet, Pack>, holds: map<Packet, Content>)
    requires l.packets != [] && Kept(l, means, holds)
    ensures Kept(Places(l.packets[1..], l.prev, l.free, [l.packets[0]] + l.local), means, holds)
  {
    var p := l.packets[0];
    var l' := Places(l.packets[1..], l.prev, l.free, [p] + l.local);
    forall q | q in means
      ensures Uses(l', q) == Uses(l, q)
    {
      TimesAppend([p], l.local, q);
      TimesOne(p, q);
      TimesFirst(l.packets, q);
    }
    KeptMoved(l, l', means, holds);
  }

  /** All that waited for the next read is taken over by a reader. */
  lemma PrevToLocal(l: Places, means: map<Packet, Pack>, holds: map<Packet, Content>)
    requires l.local == [] && Kept(l, means, holds)
    ensures Kept(Places(l.packets, [], l.free, l.prev), means, holds)
  {
    var l' := Places(l.packets, [], l.free, l.prev);
    forall q | q in means
      ensures Uses(l', q) == Uses(l, q)
    {
    }
    KeptMoved(l, l', means, holds);
  }

  /** The first packet in a reader's hands is nowhere else. */
  lemma LocalAlone(l: Places, means: map<Packet, Pack>, holds: map<Packet, Content>)
    requires l.local != [] && Kept(l, means, holds)
    ensures var p := l.local[0];
            p in means && p !in l.packets && p !in l.prev && p !in l.free && p !in l.local[1..]
  {
    var p := l.local[0];
    TimesFirst(l.local, p);
    assert p in l.local && Uses(l, p) == 1;
    TimesIn(l.packets, p);
    TimesIn(l.prev, p);
    TimesIn(l.free, p);
    TimesIn(l.local[1..], p);
  }

  /** It is put back, empty. */
  lemma LocalToFree(l: Places, means: map<Packet, Pack>, holds: map<Packet, Content>)
    requires l.local != [] && Kept(l, means, holds)
    ensures var p := l.local[0];
            && p in means
            && Kept(Places(l.packets, l.prev, l.free + [p], l.local[1..]), means[p := Pack([], false)], holds[p :=
                Image(Pack([], false))])
            && Packs(l.packets, means[p := Pack([], false)]) == Packs(l.packets, means)
            && Packs(l.prev, means[p := Pack([], false)]) == Packs(l.prev, means)
            && Packs(l.local[1..], means[p := Pack([], false)]) == Packs(l.local[1..], means)
  {
    var p := l.local[0];
    var means' := means[p := Pack([], false)];
    var l' := Places(l.packets, l.prev, l.free + [p], l.local[1..]);
    LocalAlone(l, means, holds);
    KeptChange(l, means, holds, p, Pack([], false));
    forall q | q in means
      ensures Uses(l', q) == Uses(l, q)
    {
      TimesLast(l.free, p, q);
      TimesFirst(l.local, q);
    }
    KeptFreed(l, l', means', holds[p := Image(Pack([], false))], p);
    PacksSame(l.packets, means, means');
    PacksSame(l.prev, means, means');
    PacksSame(l.local[1..], means, means');
  }

  lemma KeptFreed(l: Places, l': Places, means: map<Packet, Pack>, holds: map<Packet, Content>, p: Packet)
    requires Kept(l, means, holds) && p in means && means[p] == Pack([], false)
    requires l' == Places(l.packets, l.prev, l.free + [p], l'.local)
    requires forall q :: q in l'.local ==> q in l.local
    requires forall q :: q in means ==> Uses(l', q) == Uses(l, q)
    ensures Kept(l', means, holds)
  {
  }

  /** Or it is given back to the system. */
  lemma LocalDropped(l: Places, means: map<Packet, Pack>, holds: map<Packet, Content>)
    requires l.local != [] && Kept(l, means, holds)
    ensures var p := l.local[0];
            && p in means
            && Kept(Places(l.packets, l.prev, l.free, l.local[1..]), means - {p}, holds - {p})
            && Packs(l.packets, means - {p}) == Packs(l.packets, means)
            && Packs(l.prev, means - {p}) == Packs(l.prev, means)
            && Packs(l.local[1..], means - {p}) == Packs(l.local[1..], means)
  {
    var p := l.local[0];
    var l' := Places(l.packets, l.prev, l.free, l.local[1..]);
    LocalAlone(l, means, holds);
    KeptLess(l, l', means, holds, p);
    PacksSame(l.packets, means, means - {p});
    PacksSame(l.prev, means, means - {p});
    PacksSame(l.local[1..], means, means - {p});
  }

  lemma KeptLess(l: Places, l': Places, means: map<Packet, Pack>, holds: map<Packet, Content>, p: Packet)
    requires Kept(l, means, holds) && l.local != [] && l.local[0] == p && l' == l.(local := l.local[1..])
    requires p in means && p !in l.packets && p !in l.prev && p !in l.free && p !in l.local[1..]
    ensures Kept(l', means - {p}, holds - {p})
  {
    forall q | q in means && q != p
      ensures Uses(l', q) == 1 && holds[q] == Image(means[q])
    {
      TimesFirst(l.local, q);
      assert Uses(l, q) == 1;
    }
  }

  // The operations, on a queue of packet objects.

  /** What is known of the packets: what they mean, and the store that bears it out. */
  datatype Book = Book(means: map<Packet, Pack>, store: Store)

  datatype Queue = Queue(l: Places, dispatcher: int, ran: seq<Callback>, ghost book: Book)

  ghost predicate Sound(q: Queue)
    reads q.book.store.objects
  {
    Stored(q.book.store) && Kept(q.l, q.book.means, q.book.store.holds)
  }

  ghost function Objects(q: Queue): set<object> {
    q.book.store.objects
  }

  ghost function Value(q: Queue): State {
    State(Packs(q.l.packets, q.book.means), Packs(q.l.prev, q.book.means), |q.l.free|, q.dispatcher, q.ran)
  }

  /** Marks the last packet for delivery. */
  method FlushLast(q: Queue) returns (t: Queue)
    requires q.l.packets != [] && Sound(q)
    modifies q.l.packets[|q.l.packets| - 1]
    ensures Sound(t) && Objects(t) == Objects(q)
    ensures Value(t) == Value(q).(packets := Flushed(Value(q).packets)) && t.l == q.l
  {
    ghost var p, book := q.l.packets[|q.l.packets| - 1], q.book;
    ghost var v := Last(Packs(q.l.packets, book.means)).(flush := true);
    KeptLast(q.l, book.means, book.store.holds, v);
    SetFlush(q.l.packets[|q.l.packets| - 1], book.store);
    t := q.(book := Book(book.means[p := v], Holding(book.store, p, Image(v))));
  }

  /** Appends a packet, a free one if there is any. */
  method AddPacket(q: Queue, noPacket: bool) returns (ok: bool, t: Queue)
    requires Sound(q)
    ensures Sound(t) && fresh(Objects(t) - Objects(q)) && t.l.local == q.l.local
    ensures ok <==> Value(q).free > 0 || !noPacket
    ensures var s := Value(q);
            Value(t) == if !ok then s
                        else s.(packets := s.packets + [Pack([], false)], free := if s.free > 0 then s.free - 1 else 0)
    ensures ok ==> t.l.packets != []
  {
    if q.l.free != [] {
      TakeFree(q.l, q.book.means, q.book.store.holds);
      var p := q.l.free[0];
      return true, q.(l := Places(q.l.packets + [p], q.l.prev, q.l.free[1..], q.l.local));
    }
    if noPacket {
      return false, q;
    }
    t := AddFresh(q);
    return true, t;
  }

  method AddFresh(q: Queue) returns (t: Queue)
    requires Sound(q)
    ensures Sound(t) && fresh(Objects(t) - Objects(q)) && t.l.local == q.l.local
    ensures Value(t) == Value(q).(packets := Value(q).packets + [Pack([], false)])
    ensures t.l.packets != []
  {
    var p;
    ghost var store;
    p, store := Allocate(q.book.store);
    EmptyImage();
    AddNew(q.l, q.book.means, q.book.store.holds, p);
    t := q.(l := Places(q.l.packets + [p], q.l.prev, q.l.free, q.l.local),
            book := Book(q.book.means[p := Pack([], false)], store));
  }

  /** The size a packet records is the length of what it means. */
  lemma LastSize(q: Queue)
    requires q.l.packets != [] && Sound(q)
    ensures var p := q.l.packets[|q.l.packets| - 1];
            && p in Objects(q) && p.buf in Objects(q) && p in q.book.store.holds
            && p.size == Length(Last(Value(q).packets)) == |q.book.store.holds[p].bytes|
  {
    var p := q.l.packets[|q.l.packets| - 1];
    KeptLast(q.l, q.book.means, q.book.store.holds, q.book.means[p]);
    assert p.Holds(q.book.store.holds[p]);
  }

  method HasRoom(q: Queue, size: nat) returns (fits: bool)
    requires Sound(q)
    ensures fits <==> q.l.packets != [] && Length(Last(Value(q).packets)) + size <= MAX_PACKET
  {
    if q.l.packets == [] {
      return false;
    }
    LastSize(q);
    return q.l.packets[|q.l.packets| - 1].size + size <= MAX_PACKET;
  }

  /** Marks the last packet, if there is one. */
  method MarkLast(q: Queue) returns (t: Queue)
    requires Sound(q)
    modifies Objects(q)
    ensures Sound(t) && Objects(t) == Objects(q) && t.l == q.l
    ensures Value(t) == Value(q).(packets := Marked(Value(q).packets))
  {
    if q.l.packets == [] {
      return q;
    }
    LastSize(q);
    t := FlushLast(q);
  }

  /** Marks the last packet, if there is one, and appends another. */
  method NextPacket(q: Queue, noPacket: bool) returns (status: Status, t: Queue)
    requires Sound(q)
    modifies Objects(q)
    ensures Sound(t) && fresh(Objects(t) - Objects(q)) && t.l.local == q.l.local
    ensures (status, Value(t)) == NextPlaced(Value(q), noPacket)
    ensures status == Ok ==> t.l.packets != []
  {
    t := MarkLast(q);
    var ok;
    ok, t := AddPacket(t, noPacket);
    status := if ok then Ok else Enomem;
  }

  /** The message has no room in the last packet. */
  lemma PlacedNext(s: State, size: nat, noPacket: bool)
    requires size <= MAX_PACKET && (s.packets == [] || Length(Last(s.packets)) + size > MAX_PACKET)
    ensures Placed(s, size, noPacket) == NextPlaced(s, noPacket)
  {
  }

  lemma PlacedHere(s: State, size: nat, noPacket: bool)
    requires size <= MAX_PACKET && s.packets != [] && Length(Last(s.packets)) + size <= MAX_PACKET
    ensures Placed(s, size, noPacket) == (Ok, s)
  {
  }

  ghost function Marked(ps: seq<Pack>): (marked: seq<Pack>)
    ensures |marked| == |ps|
  {
    if ps == [] then [] else Flushed(ps)
  }

  ghost function NextPlaced(s: State, noPacket: bool): (Status, State) {
    if !(s.free > 0 || !noPacket) then (Enomem, s.(packets := Marked(s.packets)))
    else (Ok, s.(packets := Marked(s.packets) + [Pack([], false)], free := if s.free > 0 then s.free - 1 else 0))
  }

  /** `Fusionee_GetPacket`: on success there is room in the last packet. */
  method GetPacket(q: Queue, size: nat, noPacket: bool) returns (status: Status, t: Queue)
    requires Sound(q)
    modifies Objects(q)
    ensures Sound(t) && fresh(Objects(t) - Objects(q)) && t.l.local == q.l.local
    ensures (status, Value(t)) == Placed(Value(q), size, noPacket)
    ensures status == Ok ==> t.l.packets != [] && Length(Last(Value(t).packets)) + size <= MAX_PACKET
  {
    if size > MAX_PACKET {
      return E2big, q;
    }
    ghost var s := Value(q);
    var fits := HasRoom(q, size);
    if fits {
      PlacedHere(s, size, noPacket);
      return Ok, q;
    }
    PlacedNext(s, size, noPacket);
    PlacedRoom(s, size, noPacket);
    status, t := NextPacket(q, noPacket);
  }

  lemma ImageAdded(v: Pack, m: Message, callback: Callback, flush: bool, status: Status)
    ensures Added(Image(v), m, callback, flush, status)
         == Image(if status == Ok then Pack(v.items + [ItemOf(m, callback)], v.flush || flush) else v)
  {
    BodiesLast(v.items, ItemOf(m, callback));
    EncodeAllLast(Bodies(v.items), m);
    assert Calls([ItemOf(m, callback)]) == if callback.func != 0 then [callback] else [] by {
      assert [ItemOf(m, callback)][..0] == [];
    }
  }

  /** Writes to the last packet, which has room. */
  method FillLast(q: Queue, kind: int, id: int, channel: int, data: seq<Byte>, extra: seq<Byte>,
                  callback: Callback, flush: bool, luck: Luck) returns (status: Status, t: Queue)
    requires Sound(q) && q.l.packets != []
    requires Length(Last(Value(q).packets)) + HEADER + |data| + |extra| <= MAX_PACKET
    modifies Objects(q)
    ensures Sound(t) && Objects(t) == Objects(q) && t.l.local == q.l.local
    ensures status == (if luck.copyFails then Efault else if callback.func != 0 && luck.noCallback then Enomem else Ok)
    ensures var item := ItemOf(Message(kind, id, channel, data + extra), callback);
            Value(t) == if status == Ok then Value(q).(packets := Appended(Value(q).packets, item, flush)) else Value(q)
  {
    var p := q.l.packets[|q.l.packets| - 1];
    LastSize(q);
    ghost var v, m := Last(Value(q).packets), Message(kind, id, channel, data + extra);
    status := Fill(p, kind, id, channel, data, extra, callback, flush, luck, q.book.store);
    ImageAdded(v, m, callback, flush, status);
    ghost var v' := if status == Ok then Pack(v.items + [ItemOf(m, callback)], v.flush || flush) else v;
    LastMeans(q, v');
    t := q.(book := Rewritten(q, v'));
  }

  ghost function Rewritten(q: Queue, v: Pack): (book: Book)
    requires q.l.packets != []
    ensures book.store.objects == Objects(q)
  {
    var p := q.l.packets[|q.l.packets| - 1];
    Book(q.book.means[p := v], Holding(q.book.store, p, Image(v)))
  }

  /** What a queue is worth once its last packet means `v`. */
  lemma LastMeans(q: Queue, v: Pack)
    requires q.l.packets != [] && Kept(q.l, q.book.means, q.book.store.holds)
    ensures q.book.store.holds[q.l.packets[|q.l.packets| - 1]] == Image(Last(Value(q).packets))
    ensures Kept(q.l, Rewritten(q, v).means, Rewritten(q, v).store.holds)
    ensures var s := Value(q);
            Value(q.(book := Rewritten(q, v))) == s.(packets := s.packets[..|s.packets| - 1] + [v])
    ensures v == Last(Value(q).packets) ==> Value(q.(book := Rewritten(q, v))) == Value(q)
  {
    KeptLast(q.l, q.book.means, q.book.store.holds, v);
    SplitLast(Value(q).packets);
  }

  lemma SentIs(s: State, m: Message, callback: Callback, flush: bool, luck: Luck, placed: State, status: Status,
               t: State)
    requires (Ok, placed) == Placed(s, HEADER + |m.data|, luck.noPacket)
    requires status == (if luck.copyFails then Efault else if callback.func != 0 && luck.noCallback then Enomem else Ok)
    requires t == if status == Ok then placed.(packets := Appended(placed.packets, ItemOf(m, callback), flush))
             else placed
    ensures (status, t) == Sent(s, ItemOf(m, callback), flush, luck)
  {
  }

  lemma SentRefused(s: State, item: Item, flush: bool, luck: Luck, status: Status, t: State)
    requires (status, t) == Placed(s, HEADER + |item.m.data|, luck.noPacket) && status != Ok
    ensures (status, t) == Sent(s, item, flush, luck)
  {
  }

  method Enqueue(q: Queue, kind: int, id: int, channel: int, data: seq<Byte>, extra: seq<Byte>,
                 callback: Callback, flush: bool, luck: Luck) returns (status: Status, t: Queue)
    requires Sound(q)
    modifies Objects(q)
    ensures Sound(t) && fresh(Objects(t) - Objects(q)) && t.l.local == q.l.local
    ensures (status, Value(t))
         == Sent(Value(q), ItemOf(Message(kind, id, channel, data + extra), callback), flush, luck)
  {
    ghost var s, item := Value(q), ItemOf(Message(kind, id, channel, data + extra), callback);
    status, t := GetPacket(q, HEADER + |data| + |extra|, luck.noPacket);
    if status != Ok {
      SentRefused(s, item, flush, luck, status, Value(t));
      return;
    }
    status, t := FillPlaced(t, s, kind, id, channel, data, extra, callback, flush, luck);
  }

  /** The rest of a send of which `s` was the state before and `q` is the queue with room made. */
  method FillPlaced(q: Queue, ghost s: State, kind: int, id: int, channel: int, data: seq<Byte>, extra: seq<Byte>,
                    callback: Callback, flush: bool, luck: Luck) returns (status: Status, t: Queue)
    requires Sound(q) && q.l.packets != []
    requires (Ok, Value(q)) == Placed(s, HEADER + |data| + |extra|, luck.noPacket)
    requires Length(Last(Value(q).packets)) + HEADER + |data| + |extra| <= MAX_PACKET
    modifies Objects(q)
    ensures Sound(t) && Objects(t) == Objects(q) && t.l.local == q.l.local
    ensures (status, Value(t)) == Sent(s, ItemOf(Message(kind, id, channel, data + extra), callback), flush, luck)
  {
    status, t := FillLast(q, kind, id, channel, data, extra, callback, flush, luck);
    SentIs(s, Message(kind, id, channel, data + extra), callback, flush, luck, Value(q), status, Value(t));
  }

  /** `fusionee_send_message2`. `Eagain` stands for going to sleep until the queue has been
      read; then it is tried again. */
  method SendMessage(q: Queue, sender: int, pid: int, kind: int, id: int, channel: int, data: seq<Byte>,
                     extra: seq<Byte>,
                     callback: Callback, flush: bool, luck: Luck) returns (status: Status, t: Queue)
    requires Sound(q)
    modifies Objects(q)
    ensures Sound(t) && fresh(Objects(t) - Objects(q)) && t.l.local == q.l.local
    ensures (status, Value(t)) ==
            if MustWait(Value(q), sender, pid, kind) then (Eagain, Value(q))
            else Sent(Value(q), ItemOf(Message(kind, id, channel, data + extra), callback), flush, luck)
  {
    if |q.l.packets| > MAX_QUEUED && sender != 0 && sender != MASTER && pid != q.dispatcher && kind != LEAVE {
      return Eagain, q;
    }
    status, t := Enqueue(q, kind, id, channel, data, extra, callback, flush, luck);
  }

  // Reading.

  /** `Fusionee_PutPacket`, for the first packet in the reader's hands. */
  method PutPacket(q: Queue) returns (t: Queue)
    requires Sound(q) && q.l.local != []
    modifies Objects(q)
    ensures Sound(t) && Objects(t) == Objects(q)
    ensures Value(t) == Value(q).(free := Put(Value(q).free))
    ensures t.l.local == q.l.local[1..] && Packs(t.l.local, t.book.means) == Packs(t.l.local, q.book.means)
  {
    if |q.l.free| > 11 {
      t := DropPacket(q);
    } else {
      t := KeepPacket(q);
    }
  }

  method DropPacket(q: Queue) returns (t: Queue)
    requires Sound(q) && q.l.local != []
    ensures Sound(t) && Objects(t) == Objects(q) && Value(t) == Value(q)
    ensures t.l.local == q.l.local[1..] && Packs(t.l.local, t.book.means) == Packs(t.l.local, q.book.means)
  {
    ghost var p, means, store := q.l.local[0], q.book.means, q.book.store;
    LocalDropped(q.l, means, store.holds);
    Forgotten(store, p);
    t := q.(l := q.l.(local := q.l.local[1..]), book := Book(means - {p}, store.(holds := store.holds - {p})));
  }

  method KeepPacket(q: Queue) returns (t: Queue)
    requires Sound(q) && q.l.local != []
    modifies Objects(q)
    ensures Sound(t) && Objects(t) == Objects(q)
    ensures Value(t) == Value(q).(free := Value(q).free + 1)
    ensures t.l.local == q.l.local[1..] && Packs(t.l.local, t.book.means) == Packs(t.l.local, q.book.means)
  {
    var p := q.l.local[0];
    ghost var means, store := q.book.means, q.book.store;
    EmptyImage();
    LocalToFree(q.l, means, store.holds);
    Reset(p, store);
    t := q.(l := Places(q.l.packets, q.l.prev, q.l.free + [p], q.l.local[1..]),
            book := Book(means[p := Pack([], false)], Holding(store, p, Content([], false, []))));
  }

  /** What the first packet in a reader's hands records is what it means. */
  lemma LocalHolds(q: Queue)
    requires q.l.local != [] && Sound(q)
    ensures var p := q.l.local[0];
            && p in q.book.means && p.callbacks == Calls(q.book.means[p].items)
            && Packs(q.l.local, q.book.means) == [q.book.means[p]] + Packs(q.l.local[1..], q.book.means)
  {
    var p := q.l.local[0];
    LocalAlone(q.l, q.book.means, q.book.store.holds);
    assert q.book.store.holds[p] == Image(q.book.means[p]);
    assert p.Holds(q.book.store.holds[p]);
    PacksFirst(q.l.local, q.book.means);
  }

  /** One round of `flush_packets`: the callbacks of a packet run, and it is put back. */
  method Complete(q: Queue) returns (t: Queue)
    requires Sound(q) && q.l.local != []
    modifies Objects(q)
    ensures Sound(t) && Objects(t) == Objects(q)
    ensures t.l.local == q.l.local[1..]
    ensures Completed(Value(t), Packs(t.l.local, t.book.means)) == Completed(Value(q), Packs(q.l.local, q.book.means))
  {
    LocalHolds(q);
    t := q.(ran := q.ran + q.l.local[0].callbacks);
    t := PutPacket(t);
  }

  method FlushPackets(q: Queue) returns (t: Queue)
    requires Sound(q)
    modifies Objects(q)
    ensures Sound(t) && Objects(t) == Objects(q) && t.l.local == []
    ensures Value(t) == Completed(Value(q), Packs(q.l.local, q.book.means))
  {
    t := q;
    while t.l.local != []
      invariant Sound(t) && Objects(t) == Objects(q)
      invariant Completed(Value(t), Packs(t.l.local, t.book.means))
                == Completed(Value(q), Packs(q.l.local, q.book.means))
      decreases |t.l.local|
    {
      t := Complete(t);
    }
  }

  /** What the first packet of the queue records is what it means. */
  lemma FirstHolds(q: Queue)
    requires q.l.packets != [] && Sound(q)
    ensures var p := q.l.packets[0];
            && p in q.book.means && Value(q).packets == [q.book.means[p]] + Packs(q.l.packets[1..], q.book.means)
            && p.Holds(Image(q.book.means[p])) && p.size == Length(q.book.means[p])
  {
    var p := q.l.packets[0];
    assert p in q.l.packets;
    assert q.book.store.holds[p] == Image(q.book.means[p]);
    assert p.Holds(q.book.store.holds[p]);
    PacksFirst(q.l.packets, q.book.means);
  }

  /** The first packet leaves the queue: to wait for the next read if it has callbacks,
      or to be put back. */
  method Deliver(q: Queue) returns (t: Queue)
    requires Sound(q) && q.l.packets != []
    modifies Objects(q)
    ensures Sound(t) && Objects(t) == Objects(q)
    ensures t.l.local == q.l.local && Packs(t.l.local, t.book.means) == Packs(q.l.local, q.book.means)
    ensures Value(t) == Taken(Value(q))
  {
    FirstHolds(q);
    var p := q.l.packets[0];
    if p.callbacks != [] {
      FirstToPrev(q.l, q.book.means, q.book.store.holds);
      return q.(l := Places(q.l.packets[1..], q.l.prev + [p], q.l.free, q.l.local));
    }
    FirstToLocal(q.l, q.book.means, q.book.store.holds);
    t := q.(l := Places(q.l.packets[1..], q.l.prev, q.l.free, [p] + q.l.local));
    t := PutPacket(t);
  }

  function Sum(ps: seq<Pack>, k: nat): nat
    requires k <= |ps|
  {
    if k == 0 then 0 else Sum(ps, k - 1) + Length(ps[k - 1])
  }

  /** The state of the copying loop after `k` packets. */
  ghost predicate Counting(s: State, k: nat, v: State, written: nat) {
    && k <= |s.packets| && v == TakenAll(s, k) && written == Sum(s.packets, k)
    && (forall i :: 0 <= i < k ==> s.packets[i].flush)
  }

  /** `out` is what the first `k` packets hold. */
  ghost predicate Emitted(ps: seq<Pack>, k: nat, out: seq<Byte>)
    requires k <= |ps|
  {
    out == EncodeAll(Bodies(Items(ps[..k])))
  }

  lemma EmittedNothing(ps: seq<Pack>)
    ensures Emitted(ps, 0, [])
  {
    assert ps[..0] == [] && Items([]) == [] && Bodies([]) == [] && EncodeAll([]) == [];
  }

  lemma {:induction false} TakenAllNext(s: State, k: nat)
    requires k < |s.packets|
    ensures TakenAll(s, k).packets[0] == s.packets[k] && TakenAll(s, k + 1) == Taken(TakenAll(s, k))
    decreases k
  {
    if k == 0 {
    } else {
      TakenAllNext(Taken(s), k - 1);
    }
  }

  lemma EmittedNext(ps: seq<Pack>, k: nat, out: seq<Byte>)
    requires k < |ps| && Emitted(ps, k, out)
    ensures Emitted(ps, k + 1, out + Image(ps[k]).bytes)
  {
    TakeNext(ps, k);
    ItemsLast(ps[..k], ps[k]);
    BodiesAppend(Items(ps[..k]), ps[k].items);
    EncodeAllAppend(Bodies(Items(ps[..k])), Bodies(ps[k].items));
  }

  lemma CountingNext(s: State, k: nat, v: State, written: nat)
    requires Counting(s, k, v, written) && Ready(v)
    ensures k < |s.packets| && v.packets[0] == s.packets[k]
    ensures Counting(s, k + 1, Taken(v), written + Length(v.packets[0]))
  {
    TakenAllNext(s, k);
  }

  /** Counting on behind one packet of length `n`, when `room`, `copies` and `written` are those there. */
  lemma CountOneMore(ps: seq<Pack>, room: nat, copies: nat, n: nat)
    requires ps != [] && ps[0].flush && n == Length(ps[0])
    ensures Count(ps, room + n, copies + 1) == 1 + Count(ps[1..], room, copies)
  {
  }

  lemma OutcomeOneMore(ps: seq<Pack>, room: nat, copies: nat, written: nat, n: nat)
    requires ps != [] && ps[0].flush && n == Length(ps[0]) && written >= n
    ensures Outcome(ps, room + n, copies + 1, written - n) == Outcome(ps[1..], room, copies, written)
  {
  }

  /** Counting may start after the first `k` packets, with what is left then. */
  lemma {:induction false} CountFrom(ps: seq<Pack>, room: nat, copies: nat, k: nat, left: nat, more: nat)
    requires k <= |ps| && room == left + Sum(ps, k) && copies == more + k
    requires forall i :: 0 <= i < k ==> ps[i].flush
    ensures Count(ps, room, copies) == k + Count(ps[k..], left, more)
  {
    if k == 0 {
      DropNone(ps);
    } else {
      var n := Length(ps[k - 1]);
      CountFrom(ps, room, copies, k - 1, left + n, more + 1);
      DropNext(ps, k - 1);
      CountOneMore(ps[k - 1..], left, more, n);
    }
  }

  lemma {:induction false} OutcomeFrom(ps: seq<Pack>, room: nat, copies: nat, k: nat, left: nat, more: nat, sum: nat)
    requires k <= |ps| && sum == Sum(ps, k) && room == left + sum && copies == more + k
    requires forall i :: 0 <= i < k ==> ps[i].flush
    ensures Outcome(ps, room, copies, 0) == Outcome(ps[k..], left, more, sum)
  {
    if k == 0 {
      DropNone(ps);
    } else {
      var n := Length(ps[k - 1]);
      OutcomeFrom(ps, room, copies, k - 1, left + n, more + 1, sum - n);
      DropNext(ps, k - 1);
      OutcomeOneMore(ps[k - 1..], left, more, sum, n);
    }
  }

  datatype Attempt = Copied | NotFlushed | TooLong | Fault

  /** One round of the copying loop. */
  method CopyFirst(q: Queue, left: nat, more: nat) returns (a: Attempt, t: Queue, out: seq<Byte>)
    requires Sound(q) && q.l.packets != []
    modifies Objects(q)
    ensures Sound(t) && Objects(t) == Objects(q)
    ensures SameLocal(t, q)
    ensures var s := Value(q);
            var p := s.packets[0];
            && a == (if !p.flush then NotFlushed else if Length(p) > left then TooLong
                else if more == 0 then Fault else Copied)
            && (if a == Copied then Value(t) == Taken(s) && out == Image(p).bytes && |out| == Length(p) else t == q)
  {
    FirstHolds(q);
    var p := q.l.packets[0];
    t, out := q, [];
    if !p.flush {
      return NotFlushed, t, out;
    }
    if p.size > left {
      return TooLong, t, out;
    }
    if more == 0 {
      return Fault, t, out;
    }
    out := p.buf[..p.size];
    t := Deliver(q);
    return Copied, t, out;
  }

  ghost predicate CopiedOut(s: State, room: nat, copies: nat, status: Status, t: State, out: seq<Byte>) {
    var k := Count(s.packets, room, copies);
    && status == Outcome(s.packets, room, copies, 0)
    && t == TakenAll(s, k)
    && Emitted(s.packets, k, out) && |out| <= room
  }

  lemma CountEnds(ps: seq<Pack>, room: nat, copies: nat, k: nat, status: Status)
    requires k <= |ps| && k <= copies && Sum(ps, k) <= room
    requires forall i :: 0 <= i < k ==> ps[i].flush
    requires k < |ps| && ps[k].flush && Length(ps[k]) <= room - Sum(ps, k) ==> k == copies
    requires status == if k == |ps| || !ps[k].flush then Ok
                       else if Length(ps[k]) > room - Sum(ps, k) then (if Sum(ps, k) == 0 then Emsgsize else Ok)
                       else Efault
    ensures Count(ps, room, copies) == k && Outcome(ps, room, copies, 0) == status
  {
    CountFrom(ps, room, copies, k, room - Sum(ps, k), copies - k);
    OutcomeFrom(ps, room, copies, k, room - Sum(ps, k), copies - k, Sum(ps, k));
    assert k < |ps| ==> ps[k..][0] == ps[k];
    CountNone(ps[k..], room - Sum(ps, k), copies - k, Sum(ps, k));
  }

  lemma CountNone(ps: seq<Pack>, room: nat, copies: nat, written: nat)
    requires ps == [] || !ps[0].flush || Length(ps[0]) > room || copies == 0
    ensures Count(ps, room, copies) == 0
    ensures Outcome(ps, room, copies, written) == if ps == [] || !ps[0].flush then Ok
                                                  else if Length(ps[0]) > room then (if written == 0
                                                      then Emsgsize else Ok)
                                                  else Efault
  {
  }

  lemma CopyingEnd(s: State, room: nat, copies: nat, k: nat, v: State, written: nat, out: seq<Byte>, status: Status)
    requires Counting(s, k, v, written) && written <= room && k <= copies
    requires Emitted(s.packets, k, out) && |out| == written
    requires Ready(v) && Length(v.packets[0]) <= room - written ==> k == copies
    requires status == if !Ready(v) then Ok
                       else if Length(v.packets[0]) > room - written then (if written == 0 then Emsgsize else Ok)
                       else Efault
    ensures CopiedOut(s, room, copies, status, v, out)
  {
    assert k < |s.packets| ==> v.packets[0] == s.packets[k];
    CountEnds(s.packets, room, copies, k, status);
  }

  ghost predicate SameLocal(t: Queue, q: Queue) {
    t.l.local == q.l.local && Packs(t.l.local, t.book.means) == Packs(q.l.local, q.book.means)
  }

  /** The loop's invariant. */
  ghost predicate Copying(s: State, k: nat, v: State, written: nat, out: seq<Byte>) {
    Counting(s, k, v, written) && Emitted(s.packets, k, out) && |out| == written
  }

  /** One turn of the copying loop, which is done unless a packet was copied. */
  method CopyTurn(q: Queue, room: nat, copies: nat, k: nat, written: nat, out: seq<Byte>, ghost s: State)
    returns (done: bool, status: Status, t: Queue, more: seq<Byte>)
    requires Sound(q) && q.l.packets != []
    requires Copying(s, k, Value(q), written, out) && k <= copies && written <= room
    modifies Objects(q)
    ensures Sound(t) && Objects(t) == Objects(q) && SameLocal(t, q)
    ensures done ==> CopiedOut(s, room, copies, status, Value(t), out)
    ensures !done ==>
              && k < copies && written + |more| <= room && |t.l.packets| < |q.l.packets|
              && Copying(s, k + 1, Value(t), written + |more|, out + more)
  {
    var a;
    a, t, more := CopyFirst(q, room - written, copies - k);
    done, status := a != Copied, if a == Fault then Efault else if a == TooLong && written == 0 then Emsgsize else Ok;
    if done {
      CopyingEnd(s, room, copies, k, Value(q), written, out, status);
    } else {
      CountingNext(s, k, Value(q), written);
      EmittedNext(s.packets, k, out);
      assert |t.l.packets| == |Value(t).packets|;
    }
  }

  /** The copying loop. */
  method CopyOut(q: Queue, room: nat, copies: nat) returns (status: Status, t: Queue, out: seq<Byte>)
    requires Sound(q)
    modifies Objects(q)
    ensures Sound(t) && Objects(t) == Objects(q) && SameLocal(t, q)
    ensures CopiedOut(Value(q), room, copies, status, Value(t), out)
  {
    t, out := q, [];
    var written: nat, k: nat := 0, 0;
    ghost var s := Value(q);
    EmittedNothing(s.packets);
    while t.l.packets != []
      invariant Sound(t) && Objects(t) == Objects(q) && SameLocal(t, q)
      invariant Copying(s, k, Value(t), written, out) && k <= copies && written <= room
      decreases |t.l.packets|
    {
      var done, more;
      done, status, t, more := CopyTurn(t, room, copies, k, written, out, s);
      if done {
        return;
      }
      written, out, k := written + |more|, out + more, k + 1;
    }
    status := Ok;
    CopyingEnd(s, room, copies, k, Value(t), written, out, status);
  }

  /** The start of a read: the packets of the previous one are taken over. */
  method BeginRead(q: Queue, pid: int, resumes: bool) returns (t: Queue)
    requires Sound(q) && q.l.local == []
    ensures Sound(t) && Objects(t) == Objects(q)
    ensures Value(t) == if resumes then Value(q) else Value(q).(dispatcher := pid, prev := [])
    ensures Packs(t.l.local, t.book.means) == if resumes then [] else Value(q).prev
  {
    if resumes {
      return q;
    }
    PrevToLocal(q.l, q.book.means, q.book.store.holds);
    t := q.(dispatcher := pid, l := Places(q.l.packets, [], q.l.free, q.l.prev));
  }

  /** There is a first packet, and it is flushed. */
  method IsReady(q: Queue) returns (ready: bool)
    requires Sound(q)
    ensures ready <==> Ready(Value(q))
  {
    if q.l.packets == [] {
      return false;
    }
    FirstHolds(q);
    return q.l.packets[0].flush;
  }

  /** `fusionee_get_messages`, up to where it would sleep; `out` is what it put into the
      reader's buffer. */
  method GetMessages(q: Queue, pid: int, resumes: bool, room: nat, copies: nat)
    returns (status: Status, t: Queue, out: seq<Byte>)
    requires Sound(q) && q.l.local == []
    modifies Objects(q)
    ensures Sound(t) && Objects(t) == Objects(q) && t.l.local == []
    ensures var (st, v, got) := ReadBy(Value(q), pid, resumes, room, copies);
            status == st && Value(t) == v && out == EncodeAll(Bodies(got)) && |out| <= room
  {
    t := BeginRead(q, pid, resumes);
    out := [];
    var ready := IsReady(t);
    if !ready {
      t := FlushPackets(t);
      return Eagain, t, out;
    }
    ghost var s := Value(t);
    status, t, out := CopyOut(t, room, copies);
    assert out == EncodeAll(Bodies(Items(s.packets[..Count(s.packets, room, copies)])));
    t := FlushPackets(t);
  }

  /** The receiving end of one process. */
  class Fusionee {
    var q: Queue

    constructor ()
      ensures Valid() && Value(q) == INIT.s && fresh(Objects(q))
    {
      q := Queue(Places([], [], [], []), 0, [], Book(map[], Store(map[], map[], {})));
    }

    ghost predicate Valid()
      reads this, Objects(q)
    {
      this !in Objects(q) && Sound(q) && q.l.local == []
    }

    method Send(sender: int, pid: int, kind: int, id: int, channel: int, data: seq<Byte>, extra: seq<Byte>,
                callback: Callback, flush: bool, luck: Luck) returns (status: Status)
      requires Valid()
      modifies this, Objects(q)
      ensures Valid() && fresh(Objects(q) - old(Objects(q)))
      ensures (status, Value(q)) ==
              if MustWait(old(Value(q)), sender, pid, kind) then (Eagain, old(Value(q)))
              else Sent(old(Value(q)), ItemOf(Message(kind, id, channel, data + extra), callback), flush, luck)
    {
      var t;
      status, t := SendMessage(q, sender, pid, kind, id, channel, data, extra, callback, flush, luck);
      q := t;
    }

    method Read(pid: int, resumes: bool, room: nat, copies: nat) returns (status: Status, out: seq<Byte>)
      requires Valid()
      modifies this, Objects(q)
      ensures Valid() && Objects(q) == old(Objects(q))
      ensures var (st, v, got) := ReadBy(old(Value(q)), pid, resumes, room, copies);
              status == st && Value(q) == v && out == EncodeAll(Bodies(got)) && |out| <= room
    {
      var t;
      status, t, out := GetMessages(q, pid, resumes, room, copies);
      q := t;
    }
  }
}
