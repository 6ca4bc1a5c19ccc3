/** Virtual queues of linux-one (one/queue.c): queues forward to the queues attached to
    them, and destroying a queue may destroy others. */
module OneQueues {
  import opened Errno
  import opened IdList
  import opened Sequences

  /** One attachment; `target` is the pointer kept to the other queue's target. */
  datatype QueueNode = QueueNode(targetId: int, target: int, count: nat)

  /** A queue that is not virtual has a target of its own. */
  datatype Queue = Queue(isVirtual: bool, target: int, nodes: seq<QueueNode>, destroyed: bool)

  type Table = map<int, Queue>

  /** `get_node`. */
  function NodeOf(nodes: seq<QueueNode>, targetId: int): (i: nat)
    ensures i <= |nodes|
    ensures i < |nodes| ==> nodes[i].targetId == targetId
    ensures forall j :: 0 <= j < i ==> nodes[j].targetId != targetId
  {
    FirstWhere(nodes, (n: QueueNode) => n.targetId == targetId)
  }

  function Without(nodes: seq<QueueNode>, targetId: int): seq<QueueNode> {
    var i := NodeOf(nodes, targetId);
    if i < |nodes| then nodes[..i] + nodes[i + 1..] else nodes
  }

  /** The node's queue is live and has a target, which is the one the node points to. While the
      queues in `gone` are being destroyed there may still be nodes for them. */
  ghost predicate NodeInv(queues: Table, n: QueueNode, gone: set<int>) {
    && n.count > 0
    && (n.targetId in gone ||
        (n.targetId in queues && !queues[n.targetId].isVirtual && queues[n.targetId].target == n.target != 0))
  }

  ghost predicate NodesInv(queues: Table, nodes: seq<QueueNode>, gone: set<int>) {
    && (forall i :: 0 <= i < |nodes| ==> NodeInv(queues, nodes[i], gone))
    && (forall i, j :: 0 <= i < j < |nodes| ==> nodes[i].targetId != nodes[j].targetId)
  }

  ghost predicate QueueInv(queues: Table, q: int, gone: set<int>)
    requires q in queues
  {
    && NodesInv(queues, queues[q].nodes, gone)
    && (queues[q].isVirtual ==> queues[q].target == 0)
    && (!queues[q].isVirtual ==> queues[q].target != 0 && queues[q].nodes == [] && !queues[q].destroyed)
    // A destroyed queue remains only while it has nodes.
    && (queues[q].destroyed ==> queues[q].nodes != [])
  }

  ghost predicate Inv(queues: Table, gone: set<int>) {
    && (forall q :: q in gone ==> q !in queues)
    && (forall q {:trigger QueueInv(queues, q, gone)} :: q in queues ==> QueueInv(queues, q, gone))
  }

  /** A queue waits only for the nodes for `id` to go away. */
  predicate WaitsFor(q: Queue, id: int) {
    q.destroyed && Without(q.nodes, id) == []
  }

  /** The table once the queues in `done` have been gone through on behalf of `id`: the nodes
      for it are off, and the queues that only waited for that are gone. */
  ghost function PartDetached(queues: Table, id: int, done: seq<int>): Table {
    map q | q in queues && !(q in done && WaitsFor(queues[q], id)) ::
      if q in done then queues[q].(nodes := Without(queues[q].nodes, id)) else queues[q]
  }

  /** What destroying a queue makes of the others. */
  ghost function Detached(queues: Table, id: int): Table {
    map q | q in queues && !WaitsFor(queues[q], id) :: queues[q].(nodes := Without(queues[q].nodes, id))
  }

  lemma WithoutIs(nodes: seq<QueueNode>, id: int)
    requires forall i, j :: 0 <= i < j < |nodes| ==> nodes[i].targetId != nodes[j].targetId
    ensures var rest := Without(nodes, id);
            && (forall i :: 0 <= i < |rest| ==> rest[i].targetId != id && rest[i] in nodes)
            && (forall i, j :: 0 <= i < j < |rest| ==> rest[i].targetId != rest[j].targetId)
            && (NodeOf(nodes, id) == |nodes| ==> rest == nodes)
  {
    var k, rest := NodeOf(nodes, id), Without(nodes, id);
    assert k < |nodes| ==> forall i :: 0 <= i < |rest| ==> rest[i] == nodes[if i < k then i else i + 1];
  }

  /** Going through the queues keeps everything in order, but for the nodes still to come. */
  lemma PartInv(queues: Table, id: int, done: seq<int>, gone: set<int>)
    requires Inv(queues, gone) && id in gone
    ensures Inv(PartDetached(queues, id, done), gone)
  {
    var after := PartDetached(queues, id, done);
    forall q | q in after
      ensures QueueInv(after, q, gone)
    {
      assert QueueInv(queues, q, gone);
      PartNodes(queues, id, done, gone, q);
      WithoutIs(queues[q].nodes, id);
    }
  }

  lemma PartNodes(queues: Table, id: int, done: seq<int>, gone: set<int>, q: int)
    requires Inv(queues, gone) && id in gone && q in PartDetached(queues, id, done)
    ensures NodesInv(PartDetached(queues, id, done), PartDetached(queues, id, done)[q].nodes, gone)
  {
    var after := PartDetached(queues, id, done);
    assert QueueInv(queues, q, gone);
    WithoutIs(queues[q].nodes, id);
    var rest := after[q].nodes;
    forall i | 0 <= i < |rest|
      ensures NodeInv(after, rest[i], gone)
    {
      assert rest[i] in queues[q].nodes;
      StillLive(queues, id, done, gone, q, rest[i]);
    }
  }

  /** A queue that something is attached to does not go away on the way. */
  lemma StillLive(queues: Table, id: int, done: seq<int>, gone: set<int>, q: int, n: QueueNode)
    requires Inv(queues, gone) && q in queues && n in queues[q].nodes
    ensures NodeInv(PartDetached(queues, id, done), n, gone)
  {
    assert QueueInv(queues, q, gone);
    var i :| 0 <= i < |queues[q].nodes| && queues[q].nodes[i] == n;
    assert NodeInv(queues, queues[q].nodes[i], gone);
    if n.targetId in queues {
      assert QueueInv(queues, n.targetId, gone);
    }
  }

  /** A queue that is taken off the list may still have nodes in others. */
  lemma RemovedInv(queues: Table, id: int, gone: set<int>)
    requires Inv(queues, gone) && id in queues
    ensures Inv(queues - {id}, gone + {id})
  {
    forall q | q in queues && q != id
      ensures QueueInv(queues - {id}, q, gone + {id})
    {
      assert QueueInv(queues, q, gone);
    }
  }

  /** When all have been gone through there are none left. */
  lemma DetachedInv(queues: Table, id: int, gone: set<int>)
    requires Inv(queues, gone) && id in gone
    ensures Inv(Detached(queues, id), gone - {id})
  {
    var after := Detached(queues, id);
    forall q | q in after
      ensures QueueInv(after, q, gone - {id})
    {
      assert QueueInv(queues, q, gone);
      WithoutIs(queues[q].nodes, id);
      DetachedNodes(queues, id, gone, q);
    }
  }

  lemma DetachedNodes(queues: Table, id: int, gone: set<int>, q: int)
    requires Inv(queues, gone) && id in gone && q in Detached(queues, id)
    ensures NodesInv(Detached(queues, id), Detached(queues, id)[q].nodes, gone - {id})
  {
    var after := Detached(queues, id);
    var rest := after[q].nodes;
    assert QueueInv(queues, q, gone);
    WithoutIs(queues[q].nodes, id);
    forall i | 0 <= i < |rest|
      ensures NodeInv(after, rest[i], gone - {id})
    {
      var j :| 0 <= j < |queues[q].nodes| && queues[q].nodes[j] == rest[i];
      assert NodeInv(queues, queues[q].nodes[j], gone);
      if rest[i].targetId in queues {
        assert QueueInv(queues, rest[i].targetId, gone);
      }
    }
  }

  /** Destroying a virtual queue on the way destroys no other: nothing is attached to it, and no
      queue is left that only waits. */
  lemma NestedDestroysOne(queues: Table, gone: set<int>, e: int)
    requires Inv(queues, gone) && e in queues && queues[e].isVirtual
    ensures Detached(queues - {e}, e) == queues - {e}
  {
    forall q | q in queues && q != e
      ensures Without(queues[q].nodes, e) == queues[q].nodes && !WaitsFor(queues[q], e)
    {
      assert QueueInv(queues, q, gone);
      var nodes := queues[q].nodes;
      forall i | 0 <= i < |nodes|
        ensures nodes[i].targetId != e
      {
        assert NodeInv(queues, nodes[i], gone);
      }
      assert NodeOf(nodes, e) == |nodes|;
    }
  }

  lemma PartNext(queues: Table, id: int, done: seq<int>, e: int)
    requires e in queues && e !in done
    ensures var part := PartDetached(queues, id, done);
            && e in part && part[e] == queues[e]
            && PartDetached(queues, id, done + [e]) ==
               if WaitsFor(queues[e], id) then part - {e}
                   else part[e := queues[e].(nodes := Without(queues[e].nodes, id))]
  {
    assert forall x :: x in done + [e] <==> x in done || x == e;
  }

  lemma PartAll(queues: Table, id: int, list: seq<int>)
    requires Lists(list, queues.Keys)
    ensures PartDetached(queues, id, []) == queues && PartDetached(queues, id, list) == Detached(queues, id)
  {
    assert PartDetached(queues, id, []) == queues;
    forall q | q in queues
      ensures q in list
    {
      assert Names(list, q);
    }
  }

  // The list while queues disappear from it.

  ghost function Only(list: seq<int>, keys: set<int>): seq<int> {
    if list == [] then [] else (if list[0] in keys then [list[0]] else []) + Only(list[1..], keys)
  }

  lemma {:induction false} OnlyAppend(a: seq<int>, b: seq<int>, keys: set<int>)
    ensures Only(a + b, keys) == Only(a, keys) + Only(b, keys)
  {
    if a == [] {
      assert a + b == b;
    } else {
      OnlyAppend(a[1..], b, keys);
      assert (a + b)[1..] == a[1..] + b && (a + b)[0] == a[0];
      Associates(if a[0] in keys then [a[0]] else [], Only(a[1..], keys), Only(b, keys));
    }
  }

  lemma {:induction false} OnlyAll(a: seq<int>, keys: set<int>)
    requires forall i :: 0 <= i < |a| ==> a[i] in keys
    ensures Only(a, keys) == a
  {
    if a == [] {
    } else {
      OnlyAll(a[1..], keys);
    }
  }

  lemma {:induction false} OnlyHas(a: seq<int>, keys: set<int>)
    ensures forall x :: x in Only(a, keys) <==> x in a && x in keys
    ensures |Only(a, keys)| <= |a|
  {
    if a == [] {
    } else {
      OnlyHas(a[1..], keys);
      assert forall x :: x in a <==> x == a[0] || x in a[1..];
    }
  }

  lemma {:induction false} OnlySame(a: seq<int>, k: set<int>, l: set<int>)
    requires forall x :: x in a ==> (x in k <==> x in l)
    ensures Only(a, k) == Only(a, l)
  {
    if a == [] {
    } else {
      assert forall x :: x in a[1..] ==> x in a;
      OnlySame(a[1..], k, l);
      var x := a[0];
      assert x in a;
      assert x in k <==> x in l;
    }
  }

  lemma {:induction false} OnlyTwice(a: seq<int>, k: set<int>, l: set<int>)
    requires l <= k
    ensures Only(Only(a, k), l) == Only(a, l)
  {
    if a == [] {
    } else {
      OnlyTwice(a[1..], k, l);
      OnlyAppend(if a[0] in k then [a[0]] else [], Only(a[1..], k), l);
    }
  }

  lemma {:induction false} OnlyLists(list: seq<int>, keys: set<int>, fewer: set<int>)
    requires Lists(list, keys) && fewer <= keys
    ensures Lists(Only(list, fewer), fewer)
  {
    if list == [] {
      ListsAll(list, keys);
    } else {
      ListsTail(list, keys);
      OnlyLists(list[1..], keys - {list[0]}, fewer - {list[0]});
      OnlySame(list[1..], fewer - {list[0]}, fewer);
      if list[0] in fewer {
        ListsPrepend(Only(list[1..], fewer), fewer - {list[0]}, list[0]);
        assert fewer - {list[0]} + {list[0]} == fewer;
      } else {
        assert fewer - {list[0]} == fewer;
        assert Only(list, fewer) == Only(list[1..], fewer);
      }
    }
  }

  lemma {:induction false} RemoveIsOnly(list: seq<int>, keys: set<int>, id: int)
    requires Lists(list, keys)
    ensures Remove(list, id) == Only(list, keys - {id})
  {
    if list == [] {
    } else {
      ListsTail(list, keys);
      if list[0] == id {
        OnlyAll(list[1..], keys - {id});
      } else {
        RemoveIsOnly(list[1..], keys - {list[0]}, id);
        OnlySame(list[1..], keys - {list[0]} - {id}, keys - {id});
      }
    }
  }

  function First(list: seq<int>): int {
    if list == [] then 0 else list[0]
  }

  /** The `next` pointer of an element. */
  function NextOf(list: seq<int>, e: int): int {
    if list == [] then 0 else if list[0] == e then First(list[1..]) else NextOf(list[1..], e)
  }

  lemma {:induction false} NextIs(a: seq<int>, e: int, b: seq<int>)
    requires e !in a
    ensures NextOf(a + ([e] + b), e) == First(b)
  {
    if a == [] {
      assert a + ([e] + b) == [e] + b && ([e] + b)[1..] == b;
    } else {
      NextIs(a[1..], e, b);
      assert (a + ([e] + b))[1..] == a[1..] + ([e] + b);
    }
  }

  function MoreNodes(nodes: seq<QueueNode>, targetId: int, target: int): seq<QueueNode> {
    var i := NodeOf(nodes, targetId);
    if i == |nodes| then [QueueNode(targetId, target, 1)] + nodes
    else nodes[i := nodes[i].(count := nodes[i].count + 1)]
  }

  function FewerNodes(nodes: seq<QueueNode>, targetId: int): seq<QueueNode> {
    var i := NodeOf(nodes, targetId);
    if i == |nodes| then nodes
    else if nodes[i].count <= 1 then nodes[..i] + nodes[i + 1..]
    else nodes[i := nodes[i].(count := nodes[i].count - 1)]
  }

  datatype World = World(queues: Table, ids: int)

  /** `target` is what `OneApp_CreateTarget` made for a queue that is not virtual. */
  datatype Event =
    | New(isVirtual: bool, target: int, oom: bool)
    | Destroy(id: int)
    | Attach(queueId: int, targetId: int, oom: bool)
    | Detach(queueId: int, targetId: int)

  function StatusOf(queues: Table, e: Event): Status {
    match e
    case New(_, _, oom) => if oom then Enomem else Ok
    case Destroy(id) => if id !in queues then Einval else if queues[id].destroyed then Eidrm else Ok
    case Attach(q, t, oom) =>
      if q !in queues || t !in queues then Einval
      else if !queues[q].isVirtual || queues[t].isVirtual then Einval
      else if queues[q].destroyed then Eidrm
      else if oom && NodeOf(queues[q].nodes, t) == |queues[q].nodes| then Enomem
      else Ok
    case Detach(q, t) =>
      if q !in queues then Einval
      else if NodeOf(queues[q].nodes, t) == |queues[q].nodes| then Eio
      else Ok
  }

  /** What each operation makes of the table, when it does not fail. */
  ghost function Step(w: World, e: Event): World {
    if StatusOf(w.queues, e) != Ok then w
    else match e
      case New(isVirtual, target, _) => World(w.queues[w.ids + 1 := Queue(isVirtual, target, [], false)], w.ids + 1)
      case Destroy(id) =>
        w.(queues := if w.queues[id].nodes != [] then w.queues[id := w.queues[id].(destroyed := true)]
                     else Detached(w.queues - {id}, id))
      case Attach(q, t, _) =>
        w.(queues := w.queues[q := w.queues[q].(nodes := MoreNodes(w.queues[q].nodes, t, w.queues[t].target))])
      case Detach(q, t) =>
        var nodes := FewerNodes(w.queues[q].nodes, t);
        w.(queues := if w.queues[q].destroyed && nodes == [] then w.queues - {q}
                     else w.queues[q := w.queues[q].(nodes := nodes)])
  }

  class OneQueueTable {
    var list: seq<int>
    var queues: Table
    var ids: int

    constructor ()
      ensures Valid() && queues == map[]
    {
      list, queues, ids := [], map[], 0;
    }

    ghost predicate Valid()
      reads this
    {
      && Inv(queues, {})
      && Lists(list, queues.Keys)
      && ids >= 0 && (forall q :: q in queues ==> 0 < q <= ids)
    }

    ghost function Value(): World
      reads this
    {
      World(queues, ids)
    }

    /** `one_entry_destroy_locked` with `one_queue_destruct`; the queues in `gone` are being
        destroyed further up. */
    method DestroyLocked(id: int, ghost gone: set<int>)
      requires 0 !in queues && id in queues && Lists(list, queues.Keys)
      requires Inv(queues - {id}, gone + {id})
      modifies this`list, this`queues
      ensures queues == Detached(old(queues) - {id}, id)
      ensures list == Only(old(list), queues.Keys) && Lists(list, queues.Keys)
      decreases |list|, 0
    {
      ghost var keys, was := queues.Keys, list;
      ListsRemove(list, keys, id);
      RemoveIsOnly(list, keys, id);
      ListsShorter(list, keys, id);
      list := Unlink(list, id);
      queues := queues - {id};
      assert queues.Keys == keys - {id};
      DetachAll(id, gone + {id});
      assert queues.Keys <= keys - {id};
      OnlyTwice(was, keys - {id}, queues.Keys);
    }

    /** `one_queue_detach_all`. The loop keeps the next queue before it deals with one, which may
        be destroyed; what it keeps never is. */
    method DetachAll(id: int, ghost gone: set<int>)
      requires 0 !in queues && id in gone && Inv(queues, gone) && Lists(list, queues.Keys)
      modifies this`list, this`queues
      ensures queues == Detached(old(queues), id)
      ensures list == Only(old(list), queues.Keys) && Lists(list, queues.Keys)
      decreases |list|, 2
    {
      ghost var was, before := list, queues;
      ghost var done, rest := [], list;
      PartAll(queues, id, list);
      var elem := First(list);
      var next := if elem != 0 then NextOf(list, elem) else 0;
      NextStart(list);
      while elem != 0
        invariant was == done + rest && Stage(before, id, done, rest, queues, list) && |list| <= |was|
        invariant elem == First(rest) && (rest != [] ==> next == First(rest[1..]))
        decreases |rest|
      {
        DetachOne(elem, id, gone, before, done, rest);
        Associates(done, [elem], rest[1..]);
        DropFirst(rest);
        done, rest := done + [elem], rest[1..];
        elem := next;
        StageNext(before, id, done, rest, queues, list);
        assert elem != 0 ==> elem in queues;
        next := if elem != 0 then NextOf(list, elem) else 0;
      }
      StageEnd(before, id, was, done, rest, queues, list);
    }

    /** The body of the loop, for one queue. */
    method DetachOne(elem: int, id: int, ghost gone: set<int>, ghost before: Table, ghost done: seq<int>,
                     ghost rest: seq<int>)
      requires id in gone && Inv(before, gone)
      requires rest != [] && elem == rest[0] && Stage(before, id, done, rest, queues, list)
      modifies this`list, this`queues
      ensures Stage(before, id, done + [elem], rest[1..], queues, list) && |list| <= old(|list|)
      decreases |list|, 1
    {
      ghost var part := queues;
      StageTurn(before, id, gone, done, rest, queues, list);
      var nodes := queues[elem].nodes;
      var i := NodeOf(nodes, id);
      if i < |nodes| {
        queues := queues[elem := queues[elem].(nodes := nodes[..i] + nodes[i + 1..])];
      }
      assert queues == part[elem := part[elem].(nodes := Without(part[elem].nodes, id))];
      if queues[elem].destroyed && queues[elem].nodes == [] {
        assert queues - {elem} == part - {elem};
        NestedDestroysOne(part, gone, elem);
        DestroyLocked(elem, gone);
      }
      StageTurned(before, id, done, rest, part, old(list), queues, list);
    }

    /** `one_entry_lookup` also moves what it finds to the front. */
    method Lookup(id: int) returns (found: bool)
      requires Valid()
      modifies this`list
      ensures Valid() && (found <==> id in queues)
      ensures list == if found then [id] + Remove(old(list), id) else old(list)
    {
      var i := 0;
      while i < |list| && list[i] != id
        invariant i <= |list| && id !in list[..i]
      {
        i := i + 1;
      }
      if i == |list| {
        assert list[..i] == list;
        ListsAll(list, queues.Keys);
        return false;
      }
      assert id in queues.Keys;
      ListsRemove(list, queues.Keys, id);
      ListsPrepend(Remove(list, id), queues.Keys - {id}, id);
      assert queues.Keys - {id} + {id} == queues.Keys;
      var rest := Unlink(list, id);
      list := [id] + rest;
      return true;
    }

    method New(isVirtual: bool, target: int, oom: bool) returns (status: Status, id: int)
      requires Valid() && (isVirtual <==> target == 0)
      modifies this
      ensures Valid() && status == StatusOf(old(queues), Event.New(isVirtual, target, oom))
      ensures Value() == Step(old(Value()), Event.New(isVirtual, target, oom))
      ensures status == Ok ==> id == ids && id !in old(queues)
    {
      if oom {
        return Enomem, 0;
      }
      ids := ids + 1;
      NewInv(queues, ids, Queue(isVirtual, target, [], false));
      ListsPrepend(list, queues.Keys, ids);
      queues := queues[ids := Queue(isVirtual, target, [], false)];
      assert queues.Keys == old(queues).Keys + {ids};
      list := [ids] + list;
      return Ok, ids;
    }

    method Destroy(id: int) returns (status: Status)
      requires Valid()
      modifies this`list, this`queues
      ensures Valid() && status == StatusOf(old(queues), Event.Destroy(id))
      ensures Value() == Step(old(Value()), Event.Destroy(id))
    {
      var found := Lookup(id);
      if !found {
        return Einval;
      }
      if queues[id].destroyed {
        return Eidrm;
      }
      MarkedInv(queues, id);
      queues := queues[id := queues[id].(destroyed := true)];
      if queues[id].nodes == [] {
        assert queues - {id} == old(queues) - {id};
        DestroyAndSettle(id);
      }
      return Ok;
    }

    /** Destroys a queue, when everything else is in order. */
    method DestroyAndSettle(id: int)
      requires 0 !in queues && id in queues && Lists(list, queues.Keys) && Inv(queues - {id}, {id})
      requires ids >= 0 && forall q :: q in queues ==> 0 < q <= ids
      modifies this`list, this`queues
      ensures Valid() && queues == Detached(old(queues) - {id}, id)
    {
      assert {} + {id} == {id};
      DestroyLocked(id, {});
      DetachedInv(old(queues) - {id}, id, {id});
      assert {id} - {id} == {};
    }

    method Attach(queueId: int, targetId: int, oom: bool) returns (status: Status)
      requires Valid()
      modifies this`list, this`queues
      ensures Valid() && status == StatusOf(old(queues), Event.Attach(queueId, targetId, oom))
      ensures Value() == Step(old(Value()), Event.Attach(queueId, targetId, oom))
    {
      var found := Lookup(queueId);
      if !found {
        return Einval;
      }
      found := Lookup(targetId);
      if !found {
        return Einval;
      }
      if !queues[queueId].isVirtual {
        return Einval;
      }
      if queues[targetId].isVirtual {
        return Einval;
      }
      if queues[queueId].destroyed {
        return Eidrm;
      }
      status := AttachNode(queueId, targetId, oom);
    }

    /** The node for the target is made, or counted up. */
    method AttachNode(queueId: int, targetId: int, oom: bool) returns (status: Status)
      requires Valid() && queueId in queues && targetId in queues
      requires queues[queueId].isVirtual && !queues[targetId].isVirtual && !queues[queueId].destroyed
      modifies this`queues
      ensures Valid()
      ensures var nodes := old(queues)[queueId].nodes;
              && status == (if oom && NodeOf(nodes, targetId) == |nodes| then Enomem else Ok)
              && queues == if status != Ok then old(queues)
                           else old(queues)[queueId := old(queues)[queueId].(nodes :=
                                  MoreNodes(nodes, targetId, old(queues)[targetId].target))]
    {
      var nodes := queues[queueId].nodes;
      var i := NodeOf(nodes, targetId);
      if i == |nodes| && oom {
        return Enomem;
      }
      AttachedInv(queues, queueId, targetId);
      if i == |nodes| {
        nodes := [QueueNode(targetId, queues[targetId].target, 1)] + nodes;
      } else {
        nodes := nodes[i := nodes[i].(count := nodes[i].count + 1)];
      }
      queues := queues[queueId := queues[queueId].(nodes := nodes)];
      return Ok;
    }

    method Detach(queueId: int, targetId: int) returns (status: Status)
      requires Valid()
      modifies this`list, this`queues
      ensures Valid() && status == StatusOf(old(queues), Event.Detach(queueId, targetId))
      ensures Value() == Step(old(Value()), Event.Detach(queueId, targetId))
    {
      var found := Lookup(queueId);
      if !found {
        return Einval;
      }
      if NodeOf(queues[queueId].nodes, targetId) == |queues[queueId].nodes| {
        return Eio;
      }
      DropNode(queueId, targetId);
      return Ok;
    }

    /** The node is counted down, and goes at zero; so does a destroyed queue with its last node. */
    method DropNode(queueId: int, targetId: int)
      requires Valid() && queueId in queues && NodeOf(queues[queueId].nodes, targetId) < |queues[queueId].nodes|
      modifies this`list, this`queues
      ensures Valid()
      ensures var was := old(queues)[queueId];
              var nodes := FewerNodes(was.nodes, targetId);
              queues == if was.destroyed && nodes == [] then old(queues) - {queueId}
                        else old(queues)[queueId := was.(nodes := nodes)]
    {
      DetachInv(queues, queueId, targetId);
      var nodes := queues[queueId].nodes;
      var i := NodeOf(nodes, targetId);
      if nodes[i].count == 1 {
        nodes := nodes[..i] + nodes[i + 1..];
      } else {
        nodes := nodes[i := nodes[i].(count := nodes[i].count - 1)];
      }
      queues := queues[queueId := queues[queueId].(nodes := nodes)];
      if queues[queueId].destroyed && nodes == [] {
        assert queues - {queueId} == old(queues) - {queueId};
        DestroyAndSettle(queueId);
      }
    }
  }

  lemma NewInv(queues: Table, id: int, q: Queue)
    requires Inv(queues, {}) && id !in queues && q.nodes == [] && !q.destroyed && (q.isVirtual <==> q.target == 0)
    ensures Inv(queues[id := q], {})
  {
    var after := queues[id := q];
    forall k | k in after
      ensures QueueInv(after, k, {})
    {
      if k != id {
        assert QueueInv(queues, k, {});
      }
    }
  }

  /** Marking a queue destroyed concerns nobody else. */
  lemma MarkedInv(queues: Table, id: int)
    requires Inv(queues, {}) && id in queues
    ensures var after := queues[id := queues[id].(destroyed := true)];
            if queues[id].nodes == [] then Inv(after - {id}, {id}) else Inv(after, {})
  {
    var after := queues[id := queues[id].(destroyed := true)];
    RemovedInv(queues, id, {});
    assert {} + {id} == {id};
    assert after - {id} == queues - {id};
    if queues[id].nodes != [] {
      forall k | k in after
        ensures QueueInv(after, k, {})
      {
        assert QueueInv(queues, k, {}) && QueueInv(queues, id, {});
      }
    }
  }

  /** Changing the nodes of a virtual queue to ones that are in order. */
  lemma NodesSet(queues: Table, id: int, nodes: seq<QueueNode>)
    requires Inv(queues, {}) && id in queues && queues[id].isVirtual
    requires NodesInv(queues, nodes, {}) && (queues[id].destroyed ==> nodes != [])
    ensures Inv(queues[id := queues[id].(nodes := nodes)], {})
  {
    var after := queues[id := queues[id].(nodes := nodes)];
    forall k | k in after
      ensures QueueInv(after, k, {})
    {
      assert QueueInv(queues, k, {});
      forall i | 0 <= i < |after[k].nodes|
        ensures NodeInv(after, after[k].nodes[i], {})
      {
        assert NodeInv(queues, after[k].nodes[i], {});
      }
    }
  }

  lemma AttachedInv(queues: Table, id: int, targetId: int)
    requires Inv(queues, {}) && id in queues && targetId in queues
    requires queues[id].isVirtual && !queues[targetId].isVirtual && !queues[id].destroyed
    ensures Inv(queues[id := queues[id].(nodes := MoreNodes(queues[id].nodes, targetId, queues[targetId].target))], {})
  {
    assert QueueInv(queues, id, {}) && QueueInv(queues, targetId, {});
    var nodes := queues[id].nodes;
    var more := MoreNodes(nodes, targetId, queues[targetId].target);
    var i := NodeOf(nodes, targetId);
    forall j | 0 <= j < |more|
      ensures NodeInv(queues, more[j], {})
    {
      assert i < |nodes| ==> NodeInv(queues, nodes[j], {});
      assert i == |nodes| && j > 0 ==> NodeInv(queues, nodes[j - 1], {});
    }
    NodesSet(queues, id, more);
  }

  lemma DetachInv(queues: Table, id: int, targetId: int)
    requires Inv(queues, {}) && id in queues && NodeOf(queues[id].nodes, targetId) < |queues[id].nodes|
    ensures queues[id].isVirtual
    ensures NodeOf(queues[id].nodes, targetId) < |queues[id].nodes|
            && queues[id].nodes[NodeOf(queues[id].nodes, targetId)].count > 0
    ensures var fewer := FewerNodes(queues[id].nodes, targetId);
            var after := queues[id := queues[id].(nodes := fewer)];
            if queues[id].destroyed && fewer == [] then Inv(after - {id}, {id}) else Inv(after, {})
    ensures Detached(queues - {id}, id) == queues - {id}
  {
    assert QueueInv(queues, id, {});
    var nodes := queues[id].nodes;
    var fewer := FewerNodes(nodes, targetId);
    var i := NodeOf(nodes, targetId);
    assert NodeInv(queues, nodes[i], {});
    RemovedInv(queues, id, {});
    assert {} + {id} == {id};
    assert queues[id := queues[id].(nodes := fewer)] - {id} == queues - {id};
    NestedDestroysOne(queues, {}, id);
    FewerInv(queues, nodes, targetId);
    if !queues[id].destroyed || fewer != [] {
      NodesSet(queues, id, fewer);
    }
  }

  lemma FewerInv(queues: Table, nodes: seq<QueueNode>, targetId: int)
    requires NodesInv(queues, nodes, {}) && NodeOf(nodes, targetId) < |nodes|
    ensures NodesInv(queues, FewerNodes(nodes, targetId), {})
  {
    var i, fewer := NodeOf(nodes, targetId), FewerNodes(nodes, targetId);
    assert NodeInv(queues, nodes[i], {});
    if nodes[i].count <= 1 {
      assert forall j :: 0 <= j < |fewer| ==> fewer[j] == nodes[if j < i then j else j + 1];
    } else {
      forall j | 0 <= j < |fewer|
        ensures NodeInv(queues, fewer[j], {})
      {
        assert NodeInv(queues, nodes[j], {});
      }
    }
  }

  /** `done` have been gone through for `id`, `rest` have not. */
  ghost predicate Stage(before: Table, id: int, done: seq<int>, rest: seq<int>, queues: Table, list: seq<int>) {
    && 0 !in before && Lists(done + rest, before.Keys)
    && queues == PartDetached(before, id, done)
    && list == Only(done, queues.Keys) + rest && Lists(list, queues.Keys)
  }

  lemma NextStart(list: seq<int>)
    ensures list != [] ==> NextOf(list, list[0]) == First(list[1..])
  {
  }

  lemma ListsShorter(list: seq<int>, keys: set<int>, id: int)
    requires Lists(list, keys) && id in keys
    ensures |Remove(list, id)| < |list|
  {
    ListsAll(list, keys);
    RemoveShorter(list, id);
  }

  lemma {:induction false} RemoveShorter(list: seq<int>, id: int)
    requires id in list
    ensures |Remove(list, id)| == |list| - 1
  {
    if list[0] == id {
    } else {
      RemoveShorter(list[1..], id);
    }
  }

  lemma NotBefore(done: seq<int>, rest: seq<int>, keys: set<int>)
    requires rest != [] && Lists(done + rest, keys)
    ensures rest[0] in keys && rest[0] !in done
  {
    var all := done + rest;
    assert all[|done|] == rest[0];
    forall i | 0 <= i < |done|
      ensures done[i] != rest[0]
    {
      assert all[i] == done[i];
    }
  }

  lemma StageNext(before: Table, id: int, done: seq<int>, rest: seq<int>, queues: Table, list: seq<int>)
    requires Stage(before, id, done, rest, queues, list)
    ensures rest != [] ==> rest[0] != 0 && rest[0] in queues && NextOf(list, rest[0]) == First(rest[1..])
  {
    if rest != [] {
      var e := rest[0];
      NotBefore(done, rest, before.Keys);
      OnlyHas(done, queues.Keys);
      DropFirst(rest);
      NextIs(Only(done, queues.Keys), e, rest[1..]);
    }
  }

  lemma StageEnd(before: Table, id: int, was: seq<int>, done: seq<int>, rest: seq<int>, queues: Table, list: seq<int>)
    requires Stage(before, id, done, rest, queues, list) && was == done + rest && First(rest) == 0
    ensures queues == Detached(before, id) && list == Only(was, queues.Keys)
  {
    StageNext(before, id, done, rest, queues, list);
    assert rest == [] && done == was;
    PartAll(before, id, was);
  }

  /** Before a queue is dealt with. */
  lemma StageTurn(before: Table, id: int, gone: set<int>, done: seq<int>, rest: seq<int>, queues: Table, list: seq<int>)
    requires Stage(before, id, done, rest, queues, list) && rest != []
    requires id in gone && Inv(before, gone)
    ensures rest[0] in queues && 0 !in queues
    ensures Inv(queues, gone) && Inv(queues - {rest[0]}, gone + {rest[0]})
    ensures queues[rest[0]].destroyed ==> queues[rest[0]].isVirtual
  {
    StageNext(before, id, done, rest, queues, list);
    PartInv(before, id, done, gone);
    RemovedInv(queues, rest[0], gone);
    assert QueueInv(queues, rest[0], gone);
  }

  /** And afterwards. */
  lemma StageTurned(before: Table, id: int, done: seq<int>, rest: seq<int>, part: Table, was: seq<int>, queues: Table,
                    list: seq<int>)
    requires Stage(before, id, done, rest, part, was) && rest != []
    requires var e := rest[0];
             && e in part
             && queues == (if WaitsFor(part[e], id) then part - {e}
                 else part[e := part[e].(nodes := Without(part[e].nodes, id))])
             && list == (if WaitsFor(part[e], id) then Only(was, queues.Keys) else was)
    ensures Stage(before, id, done + [rest[0]], rest[1..], queues, list) && |list| <= |was|
  {
    var e := rest[0];
    NotBefore(done, rest, before.Keys);
    PartNext(before, id, done, e);
    DropFirst(rest);
    Associates(done, [e], rest[1..]);
    OnlyHas(was, queues.Keys);
    if WaitsFor(part[e], id) {
      assert queues.Keys == part.Keys - {e};
      ListFewer(done, rest, part.Keys);
      OnlyLists(was, part.Keys, queues.Keys);
    } else {
      assert queues.Keys == part.Keys;
      ListSame(done, rest, part.Keys);
    }
  }

  lemma OnlyOne(e: int, keys: set<int>)
    ensures Only([e], keys) == if e in keys then [e] else []
  {
    assert [e][1..] == [];
  }

  /** The queue stays in the list. */
  lemma ListSame(done: seq<int>, rest: seq<int>, keys: set<int>)
    requires rest != [] && rest[0] in keys
    ensures Only(done, keys) + rest == Only(done + [rest[0]], keys) + rest[1..]
  {
    OnlyAppend(done, [rest[0]], keys);
    OnlyOne(rest[0], keys);
    DropFirst(rest);
    Associates(Only(done, keys), [rest[0]], rest[1..]);
  }

  /** The queue goes, and no other. */
  lemma ListFewer(done: seq<int>, rest: seq<int>, keys: set<int>)
    requires rest != [] && Lists(Only(done, keys) + rest, keys)
    ensures var fewer := keys - {rest[0]};
            Only(Only(done, keys) + rest, fewer) == Only(done + [rest[0]], fewer) + rest[1..]
  {
    var e, fewer := rest[0], keys - {rest[0]};
    OnlyAppend(Only(done, keys), rest, fewer);
    OnlyTwice(done, keys, fewer);
    RestKept(Only(done, keys), rest, keys);
    OnlyAll(rest[1..], fewer);
    OnlyAppend(done, [e], fewer);
    OnlyOne(e, fewer);
  }

  lemma RestKept(done: seq<int>, rest: seq<int>, keys: set<int>)
    requires rest != [] && Lists(done + rest, keys)
    ensures forall i :: 0 <= i < |rest[1..]| ==> rest[1..][i] in keys - {rest[0]}
  {
    var all := done + rest;
    assert all[|done|] == rest[0];
    forall i | 0 <= i < |rest[1..]|
      ensures rest[1..][i] in keys - {rest[0]}
    {
      assert all[|done| + 1 + i] == rest[1..][i];
    }
  }
}
