/** The entry table (entries.c): a list of all entries and a hash table of the same
    entries by id, kept in step. */
module Entries {
  import opened Errno
  import opened Hash

  datatype Entry = Entry(id: int, pid: int, creator: int)

  /** What scanning the list for an id finds. */
  function Scan(list: seq<Entry>, id: int): Option<Entry> {
    if list == [] then None
    else if list[0].id == id then Some(list[0])
    else Scan(list[1..], id)
  }

  /** The list without the entry of this id. */
  function Without(list: seq<Entry>, id: int): seq<Entry> {
    if list == [] then []
    else if list[0].id == id then list[1..]
    else [list[0]] + Without(list[1..], id)
  }

  ghost predicate Ordered(list: seq<Entry>, ids: int) {
    && (forall i :: 0 <= i < |list| ==> 0 < list[i].id <= ids)
    && (forall i, j :: 0 <= i < j < |list| ==> list[i].id > list[j].id)
  }

  lemma {:induction false} ScanOrdered(list: seq<Entry>, ids: int, id: int)
    requires Ordered(list, ids) && !(0 < id <= ids)
    ensures Scan(list, id) == None
  {
    if list == [] {
    } else {
      ScanOrdered(list[1..], ids, id);
    }
  }

  lemma {:induction false} ScanBelow(list: seq<Entry>, id: int)
    requires forall i :: 0 <= i < |list| ==> list[i].id < id
    ensures Scan(list, id) == None
  {
    if list == [] {
    } else {
      ScanBelow(list[1..], id);
    }
  }

  /** Removing an entry is not noticed by scans for other ids. */
  lemma {:induction false} ScanWithout(list: seq<Entry>, ids: int, id: int, k: int)
    requires Ordered(list, ids)
    ensures Scan(Without(list, id), k) == if k == id then None else Scan(list, k)
  {
    if list == [] {
    } else {
      if list[0].id == id {
        ScanBelow(list[1..], id);
      } else {
        ScanWithout(list[1..], ids, id, k);
        assert ([list[0]] + Without(list[1..], id))[1..] == Without(list[1..], id);
      }
    }
  }

  lemma {:induction false} WithoutOrdered(list: seq<Entry>, ids: int, id: int)
    requires Ordered(list, ids)
    ensures Ordered(Without(list, id), ids) && |Without(list, id)| <= |list|
    ensures forall i :: 0 <= i < |Without(list, id)| ==> Without(list, id)[i] in list
  {
    if list != [] && list[0].id != id {
      WithoutOrdered(list[1..], ids, id);
      assert forall i :: 0 <= i < |list[1..]| ==> list[1..][i].id < list[0].id;
    }
  }

  // Both views, over runs of creation and destruction.

  datatype World = World(list: seq<Entry>, ids: int, table: map<int, Entry>)

  /** `init` is what the class's own initialisation returns, and `noNode` tells whether the hash
      lacks the memory for a node. An entry is destroyed by its id, or by a pointer to it. */
  datatype Event =
    | Create(pid: int, creator: int, oom: bool, init: Status, noNode: bool)
    | Destroy(id: int)
    | DestroyLocked(id: int)

  const INIT := World([], 0, map[])

  ghost predicate Enabled(w: World, e: Event) {
    e.DestroyLocked? ==> Scan(w.list, e.id) != None
  }

  function Destroyed(w: World, id: int): World {
    World(Without(w.list, id), w.ids, w.table - {id})
  }

  function Step(w: World, e: Event): World {
    match e
    case Create(pid, creator, oom, init, noNode) =>
      if oom then w
      else if init != Ok then w.(ids := w.ids + 1)
      else
        var entry := Entry(w.ids + 1, pid, creator);
        World([entry] + w.list, w.ids + 1, if noNode then w.table else w.table[entry.id := entry])
    case Destroy(id) => if id in w.table then Destroyed(w, id) else w
    case DestroyLocked(id) => Destroyed(w, id)
  }

  /** What the hash finds is in the list; every id was handed out, to one entry. */
  ghost predicate Fits(w: World) {
    && w.ids >= 0 && Ordered(w.list, w.ids)
    && (forall id {:trigger Scan(w.list, id)} :: Get(w.table, id) == None || Get(w.table, id) == Scan(w.list, id))
  }

  lemma CreateKeepsFit(w: World, e: Event)
    requires Fits(w) && e.Create? && !e.oom && e.init == Ok
    ensures Fits(Step(w, e))
    ensures forall k :: Scan(Step(w, e).list, k) == if k == w.ids + 1 then Some(Entry(k, e.pid, e.creator))
            else Scan(w.list, k)
    ensures w.ids + 1 !in w.table
  {
    var entry := Entry(w.ids + 1, e.pid, e.creator);
    ScanOrdered(w.list, w.ids, w.ids + 1);
    assert Scan(w.list, w.ids + 1) == None;
    forall k
      ensures Scan([entry] + w.list, k) == if k == entry.id then Some(entry) else Scan(w.list, k)
    {
      assert ([entry] + w.list)[1..] == w.list;
    }
  }

  lemma DestroyKeepsFit(w: World, id: int)
    requires Fits(w)
    ensures Fits(Destroyed(w, id))
    ensures forall k :: Scan(Destroyed(w, id).list, k) == if k == id then None else Scan(w.list, k)
  {
    WithoutOrdered(w.list, w.ids, id);
    forall k
      ensures Scan(Without(w.list, id), k) == if k == id then None else Scan(w.list, k)
    {
      ScanWithout(w.list, w.ids, id, k);
    }
  }

  ghost predicate StepAt(ws: seq<World>, es: seq<Event>, i: nat)
    requires i < |es| < |ws|
  {
    Enabled(ws[i], es[i]) && ws[i + 1] == Step(ws[i], es[i])
  }

  ghost predicate IsRun(ws: seq<World>, es: seq<Event>) {
    |ws| == |es| + 1 && ws[0] == INIT && forall i :: 0 <= i < |es| ==> StepAt(ws, es, i)
  }

  /** The step hands out `id`, and the hash has no memory for it. */
  predicate Unhashed(w: World, e: Event, id: int) {
    e.Create? && !e.oom && e.init == Ok && e.noNode && id == w.ids + 1
  }

  ghost predicate CreatedUnhashed(ws: seq<World>, es: seq<Event>, k: nat, id: int)
    requires k <= |es| <= |ws|
  {
    exists i {:trigger Unhashed(ws[i], es[i], id)} :: 0 <= i < k && Unhashed(ws[i], es[i], id)
  }

  lemma OneMore(ws: seq<World>, es: seq<Event>, k: nat, id: int)
    requires 0 < k <= |es| <= |ws|
    ensures CreatedUnhashed(ws, es, k, id) <==> CreatedUnhashed(ws, es, k - 1, id) || Unhashed(ws[k - 1], es[k - 1], id)
  {
    if CreatedUnhashed(ws, es, k, id) && !Unhashed(ws[k - 1], es[k - 1], id) {
      var i :| 0 <= i < k && Unhashed(ws[i], es[i], id);
      assert i < k - 1;
    }
  }

  lemma StepFinds(w: World, e: Event, id: int, unhashed: bool)
    requires Fits(w) && Enabled(w, e)
    requires Get(w.table, id) == if unhashed then None else Scan(w.list, id)
    requires unhashed ==> id <= w.ids
    ensures Fits(Step(w, e)) && w.ids <= Step(w, e).ids
    ensures Get(Step(w, e).table, id) == if unhashed || Unhashed(w, e, id) then None else Scan(Step(w, e).list, id)
  {
    match e
    case Create(_, _, oom, init, _) => if !oom && init == Ok { CreateKeepsFit(w, e); }
    case Destroy(k) => DestroyKeepsFit(w, k);
    case DestroyLocked(k) => DestroyKeepsFit(w, k);
  }

  /** The hash finds what a scan finds, but for entries created without a node. */
  lemma {:induction false} FindsScanned(ws: seq<World>, es: seq<Event>, k: nat, id: int)
    requires IsRun(ws, es) && k <= |es|
    ensures Fits(ws[k])
    ensures Get(ws[k].table, id) == if CreatedUnhashed(ws, es, k, id) then None else Scan(ws[k].list, id)
    ensures CreatedUnhashed(ws, es, k, id) ==> id <= ws[k].ids
  {
    if k == 0 {
    } else {
      FindsScanned(ws, es, k - 1, id);
      assert StepAt(ws, es, k - 1);
      OneMore(ws, es, k, id);
      StepFinds(ws[k - 1], es[k - 1], id, CreatedUnhashed(ws, es, k - 1, id));
    }
  }

  /** In every reachable state the two views agree on an id if and only if no live entry of this
      id was created while the hash had no memory for it. */
  lemma AgreementExactly(ws: seq<World>, es: seq<Event>, k: nat, id: int)
    requires IsRun(ws, es) && k <= |es|
    ensures Get(ws[k].table, id) == Scan(ws[k].list, id)
            <==> !(Scan(ws[k].list, id) != None && CreatedUnhashed(ws, es, k, id))
  {
    FindsScanned(ws, es, k, id);
  }

  lemma {:induction false} IdsGrow(ws: seq<World>, es: seq<Event>, i: nat, k: nat)
    requires IsRun(ws, es) && i <= k <= |es|
    ensures ws[i].ids <= ws[k].ids
  {
    if i == k {
    } else {
      IdsGrow(ws, es, i, k - 1);
      assert StepAt(ws, es, k - 1);
    }
  }

  /** An id that is gone stays gone: what a scan does not find under an id that was handed out, no
      later scan finds. */
  lemma {:induction false} NeverReused(ws: seq<World>, es: seq<Event>, i: nat, k: nat, id: int)
    requires IsRun(ws, es) && i <= k <= |es| && id <= ws[i].ids && Scan(ws[i].list, id) == None
    ensures Scan(ws[k].list, id) == None
  {
    if i == k {
    } else {
      NeverReused(ws, es, i, k - 1, id);
      IdsGrow(ws, es, i, k - 1);
      FindsScanned(ws, es, k - 1, id);
      assert StepAt(ws, es, k - 1);
      StepScans(ws[k - 1], es[k - 1], id);
    }
  }

  /** Over any run, an entry that is destroyed by an id that lookups find, or by a pointer, is found
      by nobody afterwards. */
  lemma DestroyedForGood(ws: seq<World>, es: seq<Event>, i: nat, k: nat, id: int)
    requires IsRun(ws, es) && i < k <= |es|
    requires (es[i] == Destroy(id) && id in ws[i].table) || es[i] == DestroyLocked(id)
    ensures Scan(ws[k].list, id) == None && Get(ws[k].table, id) == None
  {
    var w := ws[i];
    FindsScanned(ws, es, i, id);
    assert StepAt(ws, es, i);
    if es[i].Destroy? {
      assert Get(w.table, id) == Scan(w.list, id) != None;
    }
    if !(0 < id <= w.ids) {
      ScanOrdered(w.list, w.ids, id);
    }
    DestroyKeepsFit(w, id);
    NeverReused(ws, es, i + 1, k, id);
    FindsScanned(ws, es, k, id);
  }

  /** And nobody else's is: until it is destroyed itself, an entry that a scan finds stays as it is. */
  lemma {:induction false} LivesUntilDestroyed(ws: seq<World>, es: seq<Event>, i: nat, k: nat, id: int)
    requires IsRun(ws, es) && i <= k <= |es| && Scan(ws[i].list, id) != None
    requires forall m :: i <= m < k ==> es[m] != Destroy(id) && es[m] != DestroyLocked(id)
    ensures Scan(ws[k].list, id) == Scan(ws[i].list, id) && Get(ws[k].table, id) == Get(ws[i].table, id)
  {
    if i == k {
    } else {
      LivesUntilDestroyed(ws, es, i, k - 1, id);
      FindsScanned(ws, es, k - 1, id);
      assert StepAt(ws, es, k - 1);
      StepKeepsOthers(ws[k - 1], es[k - 1], id);
    }
  }

  lemma StepKeepsOthers(w: World, e: Event, id: int)
    requires Fits(w) && Enabled(w, e) && Scan(w.list, id) != None && e != Destroy(id) && e != DestroyLocked(id)
    ensures Scan(Step(w, e).list, id) == Scan(w.list, id) && Get(Step(w, e).table, id) == Get(w.table, id)
  {
    if !(0 < id <= w.ids) {
      ScanOrdered(w.list, w.ids, id);
    }
    match e
    case Create(_, _, oom, init, _) => if !oom && init == Ok { CreateKeepsFit(w, e); }
    case Destroy(k) => DestroyKeepsFit(w, k);
    case DestroyLocked(k) => DestroyKeepsFit(w, k);
  }

  /** A creation that succeeds hands out an id nobody had, under which its entry is then found. */
  lemma CreatedIsFound(ws: seq<World>, es: seq<Event>, i: nat)
    requires IsRun(ws, es) && i < |es| && es[i].Create? && !es[i].oom && es[i].init == Ok
    ensures var id, entry := ws[i + 1].ids, Some(Entry(ws[i + 1].ids, es[i].pid, es[i].creator));
            && id > ws[i].ids && (forall m :: 0 <= m <= i ==> Scan(ws[m].list, id) == None)
            && Scan(ws[i + 1].list, id) == entry
            && Get(ws[i + 1].table, id) == if es[i].noNode then None else entry
  {
    FindsScanned(ws, es, i, ws[i].ids + 1);
    assert StepAt(ws, es, i);
    CreateKeepsFit(ws[i], es[i]);
    forall m | 0 <= m <= i
      ensures Scan(ws[m].list, ws[i].ids + 1) == None
    {
      IdsGrow(ws, es, m, i);
      FindsScanned(ws, es, m, 0);
      ScanOrdered(ws[m].list, ws[m].ids, ws[i].ids + 1);
    }
  }

  lemma StepScans(w: World, e: Event, id: int)
    requires Fits(w) && Enabled(w, e) && id <= w.ids && Scan(w.list, id) == None
    ensures Scan(Step(w, e).list, id) == None
  {
    match e
    case Create(_, _, oom, init, _) => if !oom && init == Ok { CreateKeepsFit(w, e); }
    case Destroy(k) => DestroyKeepsFit(w, k);
    case DestroyLocked(k) => DestroyKeepsFit(w, k);
  }

  /** An entry that is in the list and that no lookup finds. */
  lemma LostEntry() returns (ws: seq<World>, es: seq<Event>)
    ensures IsRun(ws, es) && |es| == 1
    ensures Scan(ws[1].list, 1) == Some(Entry(1, 7, 2)) && Get(ws[1].table, 1) == None
  {
    es := [Create(7, 2, false, Ok, true)];
    ws := [INIT, Step(INIT, es[0])];
    assert StepAt(ws, es, 0);
  }

  /** A pointer-sized key from an id. */
  function KeyHash(id: int): nat {
    id % 0x1_0000_0000_0000_0000
  }

  class FusionEntries {
    var list: seq<Entry>
    var hash: FusionHash<int, Entry>
    var ids: int

    constructor ()
      ensures Valid() && fresh(hash) && fresh(hash.nodes) && Value() == INIT
    {
      list, ids := [], 0;
      hash := new FusionHash(KeyHash, 17);
    }

    ghost predicate Valid()
      reads this, hash, hash.nodes
    {
      hash.Valid() && Fits(Value())
    }

    ghost function Value(): World
      reads this, hash
    {
      World(list, ids, hash.contents)
    }

    /** Scanning the list, as the source does where it has no use for the hash. */
    method Search(id: int) returns (e: Option<Entry>)
      ensures e == Scan(list, id)
    {
      for i := 0 to |list|
        invariant Scan(list, id) == Scan(list[i..], id)
      {
        if list[i].id == id {
          return Some(list[i]);
        }
        assert list[i..][1..] == list[i + 1..];
      }
      return None;
    }

    /** The id is used up even if the initialisation fails, and a failing hash insertion goes
        unnoticed. */
    method Create(pid: int, creator: int, oom: bool, init: Status, noNode: bool, noTable: bool)
      returns (status: Status, id: int)
      requires Valid()
      modifies this, hash, hash.nodes
      ensures Valid() && hash == old(hash) && (hash.nodes == old(hash.nodes) || fresh(hash.nodes))
      ensures status == if oom then Enomem else init
      ensures Value() == Step(old(Value()), Event.Create(pid, creator, oom, init, noNode))
      ensures status == Ok ==> id == ids > old(ids)
    {
      if oom {
        return Enomem, 0;
      }
      ids := ids + 1;
      if init != Ok {
        assert forall k :: Scan(list, k) == Scan(old(list), k);
        return init, 0;
      }
      CreateKeepsFit(old(Value()), Event.Create(pid, creator, oom, init, noNode));
      var e := Entry(ids, pid, creator);
      list := [e] + list;
      var inserted := hash.Insert(e.id, e, noNode, noTable);
      return Ok, ids;
    }

    method Lookup(id: int) returns (status: Status, e: Option<Entry>)
      requires Valid()
      ensures e == Get(hash.contents, id) && (status == if e == None then Einval else Ok)
      ensures status == Ok ==> e == Scan(list, id)
    {
      e := hash.Lookup(id);
      assert Scan(list, id) == Scan(Value().list, id);
      status := if e == None then Einval else Ok;
    }

    method Destroy(id: int) returns (status: Status)
      requires Valid()
      modifies this, hash, hash.nodes
      ensures Valid() && hash == old(hash) && hash.nodes == old(hash.nodes)
      ensures status == if id in old(hash.contents) then Ok else Einval
      ensures Value() == Step(old(Value()), Event.Destroy(id))
    {
      var e := hash.Lookup(id);
      assert Scan(list, id) == Scan(Value().list, id);
      if e == None {
        return Einval;
      }
      DestroyLocked(id);
      return Ok;
    }

    /** Destroying an entry one has a pointer to. */
    method DestroyLocked(id: int)
      requires Valid() && Scan(list, id) != None
      modifies this, hash, hash.nodes
      ensures Valid() && hash == old(hash) && hash.nodes == old(hash.nodes)
      ensures Value() == Step(old(Value()), Event.DestroyLocked(id))
    {
      DestroyKeepsFit(Value(), id);
      list := Without(list, id);
      var previous := hash.Remove(id);
    }
  }
}
