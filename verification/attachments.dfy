/** How often queues are attached to each other (one/queue.c), over runs: attachments are counted
    without regard to how the nodes are kept. */
module Attachments {
  import opened Errno
  import opened OneQueues
  import opened Sequences

  /** How often `t` is attached, by these nodes. */
  function Count(nodes: seq<QueueNode>, t: int): nat {
    if nodes == [] then 0 else (if nodes[0].targetId == t then nodes[0].count else 0) + Count(nodes[1..], t)
  }

  function Attached(queues: Table, q: int, t: int): int {
    if q in queues then Count(queues[q].nodes, t) else 0
  }

  lemma {:induction false} CountAppend(a: seq<QueueNode>, b: seq<QueueNode>, t: int)
    ensures Count(a + b, t) == Count(a, t) + Count(b, t)
  {
    if a == [] {
      assert a + b == b;
    } else {
      CountAppend(a[1..], b, t);
      assert (a + b)[1..] == a[1..] + b;
    }
  }

  lemma CountOne(n: QueueNode, t: int)
    ensures Count([n], t) == if n.targetId == t then n.count else 0
  {
    assert [n][1..] == [];
  }

  lemma CountAround(nodes: seq<QueueNode>, i: nat, t: int)
    requires i < |nodes|
    ensures Count(nodes, t) == Count(nodes[..i], t) + Count([nodes[i]], t) + Count(nodes[i + 1..], t)
  {
    Halves(nodes, i);
    DropFirst(nodes[i..]);
    DropNext(nodes, i);
    CountAppend(nodes[..i], nodes[i..], t);
    CountAppend([nodes[i]], nodes[i + 1..], t);
  }

  lemma {:induction false} CountNone(nodes: seq<QueueNode>, t: int)
    requires forall i :: 0 <= i < |nodes| ==> nodes[i].targetId != t
    ensures Count(nodes, t) == 0
  {
    if nodes == [] {
    } else {
      CountNone(nodes[1..], t);
    }
  }

  lemma {:induction false} CountSome(nodes: seq<QueueNode>, i: nat)
    requires i < |nodes| && nodes[i].count > 0
    ensures Count(nodes, nodes[i].targetId) > 0
  {
    CountAround(nodes, i, nodes[i].targetId);
    CountOne(nodes[i], nodes[i].targetId);
  }

  lemma CountMore(nodes: seq<QueueNode>, t: int, target: int, x: int)
    ensures Count(MoreNodes(nodes, t, target), x) == Count(nodes, x) + if x == t then 1 else 0
  {
    var i := NodeOf(nodes, t);
    if i == |nodes| {
      CountAppend([QueueNode(t, target, 1)], nodes, x);
      CountOne(QueueNode(t, target, 1), x);
    } else {
      CountReplaced(nodes, i, nodes[i].(count := nodes[i].count + 1), x);
    }
  }

  lemma CountReplaced(nodes: seq<QueueNode>, i: nat, n: QueueNode, x: int)
    requires i < |nodes| && n.targetId == nodes[i].targetId
    ensures Count(nodes[i := n], x) == Count(nodes, x) + if x == n.targetId then n.count - nodes[i].count else 0
  {
    CountAround(nodes, i, x);
    CountAround(nodes[i := n], i, x);
    assert nodes[i := n][..i] == nodes[..i] && nodes[i := n][i + 1..] == nodes[i + 1..];
    CountOne(n, x);
    CountOne(nodes[i], x);
  }

  lemma CountLeftOut(nodes: seq<QueueNode>, i: nat, x: int)
    requires i < |nodes|
    ensures Count(nodes[..i] + nodes[i + 1..], x)
         == Count(nodes, x) - if x == nodes[i].targetId then nodes[i].count else 0
  {
    CountAround(nodes, i, x);
    CountAppend(nodes[..i], nodes[i + 1..], x);
    CountOne(nodes[i], x);
  }

  lemma CountFewer(nodes: seq<QueueNode>, t: int, x: int)
    requires NodeOf(nodes, t) < |nodes| && nodes[NodeOf(nodes, t)].count > 0
    ensures Count(FewerNodes(nodes, t), x) == Count(nodes, x) - if x == t then 1 else 0
  {
    var i := NodeOf(nodes, t);
    if nodes[i].count == 1 {
      CountLeftOut(nodes, i, x);
    } else {
      CountReplaced(nodes, i, nodes[i].(count := nodes[i].count - 1), x);
    }
  }

  lemma CountWithout(nodes: seq<QueueNode>, t: int, x: int)
    requires forall i, j :: 0 <= i < j < |nodes| ==> nodes[i].targetId != nodes[j].targetId
    ensures Count(Without(nodes, t), x) == if x == t then 0 else Count(nodes, x)
  {
    var i := NodeOf(nodes, t);
    if i < |nodes| {
      CountLeftOut(nodes, i, x);
    }
    if x == t {
      WithoutIs(nodes, t);
      CountNone(Without(nodes, t), t);
    }
  }

  /** A queue has no nodes exactly if nothing is attached to it. */
  lemma EmptyExactly(queues: Table, gone: set<int>, nodes: seq<QueueNode>)
    requires NodesInv(queues, nodes, gone)
    ensures nodes == [] <==> forall t {:trigger Count(nodes, t)} :: Count(nodes, t) == 0
  {
    if nodes != [] {
      assert NodeInv(queues, nodes[0], gone);
      CountSome(nodes, 0);
    }
  }

  lemma FoundExactly(queues: Table, gone: set<int>, nodes: seq<QueueNode>, t: int)
    requires NodesInv(queues, nodes, gone)
    ensures NodeOf(nodes, t) < |nodes| <==> Count(nodes, t) > 0
  {
    var i := NodeOf(nodes, t);
    if i < |nodes| {
      assert NodeInv(queues, nodes[i], gone);
      CountSome(nodes, i);
    } else {
      CountNone(nodes, t);
    }
  }

  // One step.

  /** A destroyed queue takes with it no attachment but those of itself: the others keep their nodes. */
  lemma DetachedKeeps(queues: Table, id: int, gone: set<int>, q: int, i: nat)
    requires Inv(queues, gone) && q in queues && i < |queues[q].nodes| && queues[q].nodes[i].targetId != id
    ensures q in Detached(queues, id) && queues[q].nodes[i] in Detached(queues, id)[q].nodes
  {
    assert QueueInv(queues, q, gone);
    var nodes, k := queues[q].nodes, NodeOf(queues[q].nodes, id);
    if k < |nodes| {
      assert nodes[i] == Without(nodes, id)[if i < k then i else i - 1];
    }
  }

  /** How often `t` is attached to `q` after a step that succeeds. */
  ghost function Expected(queues: Table, e: Event, q: int, t: int): int {
    Attached(queues, q, t)
    + match e
      case New(_, _, _) => 0
      case Destroy(id) => if t == id then -Attached(queues, q, t) else 0
      case Attach(a, b, _) => if a == q && b == t then 1 else 0
      case Detach(a, b) => if a == q && b == t then -1 else 0
  }

  ghost predicate AllGone(queues: Table, e: Event, q: int) {
    forall t {:trigger Expected(queues, e, q, t)} :: Expected(queues, e, q, t) == 0
  }

  /** What a successful step means for queue `q`: it has the attachments expected, unless it is
      destroyed, now or before, and there are none. */
  ghost predicate Follows(queues: Table, e: Event, q: int, after: Table)
    requires q in queues
  {
    && (q in after <==> !((queues[q].destroyed || e == Event.Destroy(q)) && AllGone(queues, e, q)))
    && (q in after ==>
          && (forall t {:trigger Expected(queues, e, q, t)} :: Attached(after, q, t) == Expected(queues, e, q, t))
          && (after[q].destroyed <==> queues[q].destroyed || e == Event.Destroy(q))
          && after[q].isVirtual == queues[q].isVirtual && after[q].target == queues[q].target)
  }

  ghost predicate Good(w: World) {
    Inv(w.queues, {}) && w.ids >= 0 && forall q :: q in w.queues ==> 0 < q <= w.ids
  }

  ghost predicate Legal(e: Event) {
    e.New? ==> (e.isVirtual <==> e.target == 0)
  }

  /** What the nodes of a queue become. */
  lemma FollowsNodes(queues: Table, e: Event, q: int, after: Table, nodes: seq<QueueNode>, gone: set<int>)
    requires q in queues && NodesInv(after, nodes, gone)
    requires forall t :: Count(nodes, t) == Expected(queues, e, q, t)
    requires var marked := queues[q].destroyed || e == Event.Destroy(q);
             && (q in after <==> !(marked && nodes == []))
             && (q in after ==> after[q] == queues[q].(nodes := nodes, destroyed := marked))
    ensures Follows(queues, e, q, after)
  {
    EmptyExactly(after, gone, nodes);
    if AllGone(queues, e, q) {
      forall t
        ensures Count(nodes, t) == 0
      {
        assert Expected(queues, e, q, t) == 0;
      }
    } else {
      var t :| Expected(queues, e, q, t) != 0;
      assert Count(nodes, t) != 0;
    }
    forall t
      ensures q in after ==> Attached(after, q, t) == Expected(queues, e, q, t)
    {
    }
  }

  lemma StepKeepsGood(w: World, e: Event)
    requires Good(w) && Legal(e)
    ensures Good(Step(w, e))
  {
    if StatusOf(w.queues, e) == Ok {
      match e
      case New(isVirtual, target, _) => NewInv(w.queues, w.ids + 1, Queue(isVirtual, target, [], false));
      case Destroy(id) => DestroyKeepsInv(w.queues, id);
      case Attach(q, t, _) => AttachedInv(w.queues, q, t);
      case Detach(q, t) => DetachKeepsInv(w.queues, q, t);
    }
  }

  lemma DestroyKeepsInv(queues: Table, id: int)
    requires Inv(queues, {}) && id in queues && !queues[id].destroyed
    ensures if queues[id].nodes == [] then Inv(Detached(queues - {id}, id), {})
            else Inv(queues[id := queues[id].(destroyed := true)], {})
  {
    MarkedInv(queues, id);
    if queues[id].nodes == [] {
      assert queues[id := queues[id].(destroyed := true)] - {id} == queues - {id};
      DetachedInv(queues - {id}, id, {id});
      assert {id} - {id} == {};
    }
  }

  lemma DetachKeepsInv(queues: Table, q: int, t: int)
    requires Inv(queues, {}) && q in queues && NodeOf(queues[q].nodes, t) < |queues[q].nodes|
    ensures var nodes := FewerNodes(queues[q].nodes, t);
            Inv(if queues[q].destroyed && nodes == [] then queues - {q}
                else queues[q := queues[q].(nodes := nodes)], {})
  {
    DetachInv(queues, q, t);
    var nodes := FewerNodes(queues[q].nodes, t);
    if queues[q].destroyed && nodes == [] {
      assert queues[q := queues[q].(nodes := nodes)] - {q} == queues - {q};
      DetachedInv(queues - {q}, q, {q});
      assert {q} - {q} == {};
    }
  }

  /** Nothing is attached that is not a live queue with a target, nor a virtual one. */
  lemma OnlyReal(queues: Table, q: int, t: int)
    requires Inv(queues, {}) && q in queues && Attached(queues, q, t) > 0
    ensures t in queues && !queues[t].isVirtual && queues[q].isVirtual
  {
    assert QueueInv(queues, q, {});
    FoundExactly(queues, {}, queues[q].nodes, t);
    assert NodeInv(queues, queues[q].nodes[NodeOf(queues[q].nodes, t)], {});
  }

  lemma DestroyFollows(w: World, id: int, q: int)
    requires Good(w) && StatusOf(w.queues, Event.Destroy(id)) == Ok && q in w.queues
    ensures Follows(w.queues, Event.Destroy(id), q, Step(w, Event.Destroy(id)).queues)
  {
    var queues, e, after := w.queues, Event.Destroy(id), Step(w, Event.Destroy(id)).queues;
    assert QueueInv(queues, q, {});
    StepKeepsGood(w, e);
    var nodes := if queues[id].nodes == [] then Without(queues[q].nodes, id) else queues[q].nodes;
    forall t
      ensures Count(nodes, t) == Expected(queues, e, q, t)
    {
      CountWithout(queues[q].nodes, id, t);
      if t == id && Attached(queues, q, id) > 0 {
        OnlyReal(queues, q, id);
        assert QueueInv(queues, id, {});
      }
    }
    if q == id && queues[id].nodes == [] {
      assert nodes == [];
    }
    if nodes != [] && q in after {
      assert QueueInv(after, q, {});
    }
    FollowsNodes(queues, e, q, after, nodes, {});
  }

  lemma AttachFollows(w: World, e: Event, q: int)
    requires Good(w) && StatusOf(w.queues, e) == Ok && q in w.queues && e.Attach?
    ensures Follows(w.queues, e, q, Step(w, e).queues)
  {
    var queues, after := w.queues, Step(w, e).queues;
    StepKeepsGood(w, e);
    assert QueueInv(after, q, {}) && QueueInv(queues, q, {});
    forall t
      ensures Count(after[q].nodes, t) == Expected(queues, e, q, t)
    {
      CountMore(queues[q].nodes, e.targetId, queues[e.targetId].target, t);
    }
    FollowsNodes(queues, e, q, after, after[q].nodes, {});
  }

  lemma DetachFollows(w: World, e: Event, q: int)
    requires Good(w) && StatusOf(w.queues, e) == Ok && q in w.queues && e.Detach?
    ensures Follows(w.queues, e, q, Step(w, e).queues)
  {
    var queues, after := w.queues, Step(w, e).queues;
    assert QueueInv(queues, q, {});
    StepKeepsGood(w, e);
    var nodes := if q == e.queueId then FewerNodes(queues[q].nodes, e.targetId) else queues[q].nodes;
    forall t
      ensures Count(nodes, t) == Expected(queues, e, q, t)
    {
      if q == e.queueId {
        assert NodeInv(queues, queues[q].nodes[NodeOf(queues[q].nodes, e.targetId)], {});
        CountFewer(queues[q].nodes, e.targetId, t);
      }
    }
    if nodes != [] {
      assert QueueInv(after, q, {});
    }
    FollowsNodes(queues, e, q, after, nodes, {});
  }

  lemma NewFollows(w: World, e: Event, q: int)
    requires Good(w) && StatusOf(w.queues, e) == Ok && q in w.queues && e.New?
    ensures Follows(w.queues, e, q, Step(w, e).queues)
  {
    var queues, after := w.queues, Step(w, e).queues;
    assert QueueInv(queues, q, {});
    assert after[q] == queues[q];
    forall i | 0 <= i < |queues[q].nodes|
      ensures NodeInv(after, queues[q].nodes[i], {})
    {
      assert NodeInv(queues, queues[q].nodes[i], {});
    }
    FollowsNodes(queues, e, q, after, queues[q].nodes, {});
  }

  /** Every operation that succeeds does to each queue exactly what the attachments say, and makes
      no queue but a new one; one that fails does nothing. */
  lemma StepExactly(w: World, e: Event)
    requires Good(w) && Legal(e)
    ensures Good(Step(w, e))
    ensures StatusOf(w.queues, e) != Ok ==> Step(w, e) == w
    ensures StatusOf(w.queues, e) == Ok ==> forall q :: q in w.queues ==> Follows(w.queues, e, q, Step(w, e).queues)
    ensures forall q :: q in Step(w, e).queues && q !in w.queues ==>
              e.New? && q == w.ids + 1 && Step(w, e).queues[q] == Queue(e.isVirtual, e.target, [], false)
  {
    StepKeepsGood(w, e);
    if StatusOf(w.queues, e) == Ok {
      forall q | q in w.queues
        ensures Follows(w.queues, e, q, Step(w, e).queues)
      {
        match e
        case New(_, _, _) => NewFollows(w, e, q);
        case Destroy(id) => DestroyFollows(w, id, q);
        case Attach(_, _, _) => AttachFollows(w, e, q);
        case Detach(_, _) => DetachFollows(w, e, q);
      }
    }
  }

  /** When each operation succeeds, by the attachments there are. */
  lemma StatusExactly(w: World, e: Event)
    requires Good(w)
    ensures StatusOf(w.queues, e) == Ok <==>
            match e
            case New(_, _, oom) => !oom
            case Destroy(id) => id in w.queues && !w.queues[id].destroyed
            case Attach(q, t, oom) =>
              && q in w.queues && t in w.queues && w.queues[q].isVirtual && !w.queues[t].isVirtual
              && !w.queues[q].destroyed && (oom ==> Attached(w.queues, q, t) > 0)
            case Detach(q, t) => Attached(w.queues, q, t) > 0
  {
    if (e.Attach? || e.Detach?) && e.queueId in w.queues {
      assert QueueInv(w.queues, e.queueId, {});
      FoundExactly(w.queues, {}, w.queues[e.queueId].nodes, e.targetId);
    }
  }

  // Whole runs.

  ghost predicate StepAt(ws: seq<World>, es: seq<Event>, i: nat)
    requires i < |es| < |ws|
  {
    Legal(es[i]) && ws[i + 1] == Step(ws[i], es[i])
  }

  ghost predicate IsRun(ws: seq<World>, es: seq<Event>) {
    |ws| == |es| + 1 && ws[0] == World(map[], 0) && forall i :: 0 <= i < |es| ==> StepAt(ws, es, i)
  }

  lemma {:induction false} RunIsGood(ws: seq<World>, es: seq<Event>, k: nat)
    requires IsRun(ws, es) && k <= |es|
    ensures Good(ws[k])
  {
    if k == 0 {
    } else {
      RunIsGood(ws, es, k - 1);
      assert StepAt(ws, es, k - 1);
      StepKeepsGood(ws[k - 1], es[k - 1]);
    }
  }

  /** How many more times `t` was attached to `q` than detached from it, before step `k`. */
  ghost function Balance(ws: seq<World>, es: seq<Event>, k: nat, q: int, t: int): int
    requires k <= |es| < |ws|
  {
    if k == 0 then 0
    else
      Balance(ws, es, k - 1, q, t)
      + if StatusOf(ws[k - 1].queues, es[k - 1]) != Ok then 0
        else if es[k - 1].Attach? && es[k - 1].queueId == q && es[k - 1].targetId == t then 1
        else if es[k - 1].Detach? && es[k - 1].queueId == q && es[k - 1].targetId == t then -1
        else 0
  }

  lemma {:induction false} NotYet(ws: seq<World>, es: seq<Event>, k: nat, q: int, t: int)
    requires IsRun(ws, es) && k <= |es| && (q > ws[k].ids || t > ws[k].ids)
    ensures Balance(ws, es, k, q, t) == 0
  {
    if k == 0 {
    } else {
      RunIsGood(ws, es, k - 1);
      assert StepAt(ws, es, k - 1);
      assert ws[k - 1].ids <= ws[k].ids;
      NotYet(ws, es, k - 1, q, t);
      StatusExactly(ws[k - 1], es[k - 1]);
      if es[k - 1].Detach? && StatusOf(ws[k - 1].queues, es[k - 1]) == Ok {
        OnlyReal(ws[k - 1].queues, es[k - 1].queueId, es[k - 1].targetId);
      }
    }
  }

  lemma NewBalance(ws: seq<World>, es: seq<Event>, k: nat, q: int, t: int)
    requires IsRun(ws, es) && 0 < k <= |es| && q in ws[k].queues && t in ws[k].queues
    requires q !in ws[k - 1].queues || t !in ws[k - 1].queues
    ensures Attached(ws[k].queues, q, t) == Balance(ws, es, k, q, t) == 0
  {
    var w, e := ws[k - 1], es[k - 1];
    assert StepAt(ws, es, k - 1);
    RunIsGood(ws, es, k - 1);
    StepExactly(w, e);
    NotYet(ws, es, k - 1, q, t);
    if q in w.queues {
      assert Follows(w.queues, e, q, ws[k].queues);
      assert Expected(w.queues, e, q, t) == Attached(w.queues, q, t);
      if Attached(w.queues, q, t) != 0 {
        OnlyReal(w.queues, q, t);
      }
    }
  }

  /** A queue that is destroyed and still there is virtual, and not attached to anything. */
  lemma StillThere(w: World, t: int, q: int)
    requires Good(w) && StatusOf(w.queues, Event.Destroy(t)) == Ok && t in Step(w, Event.Destroy(t)).queues
    ensures Attached(w.queues, q, t) == 0
  {
    assert QueueInv(w.queues, t, {});
    if Attached(w.queues, q, t) != 0 {
      OnlyReal(w.queues, q, t);
    }
  }

  /** Over any run, a live queue is attached to another exactly as often as it was attached and not
      detached; a destroyed one not at all, whatever else was destroyed in between. */
  lemma {:induction false} AttachedIsBalance(ws: seq<World>, es: seq<Event>, k: nat, q: int, t: int)
    requires IsRun(ws, es) && k <= |es| && q in ws[k].queues
    ensures Attached(ws[k].queues, q, t) == if t in ws[k].queues then Balance(ws, es, k, q, t) else 0
  {
    RunIsGood(ws, es, k);
    if t !in ws[k].queues {
      if Attached(ws[k].queues, q, t) != 0 {
        OnlyReal(ws[k].queues, q, t);
      }
    } else if k == 0 {
    } else {
      assert StepAt(ws, es, k - 1);
      RunIsGood(ws, es, k - 1);
      StepExactly(ws[k - 1], es[k - 1]);
      if q in ws[k - 1].queues && t in ws[k - 1].queues {
        AttachedIsBalance(ws, es, k - 1, q, t);
        if StatusOf(ws[k - 1].queues, es[k - 1]) == Ok {
          assert Follows(ws[k - 1].queues, es[k - 1], q, ws[k].queues);
          assert Attached(ws[k].queues, q, t) == Expected(ws[k - 1].queues, es[k - 1], q, t);
          if es[k - 1] == Event.Destroy(t) {
            StillThere(ws[k - 1], t, q);
          }
        }
      } else {
        NewBalance(ws, es, k, q, t);
      }
    }
  }
}
