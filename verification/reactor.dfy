/** Reactors (reactor.c): who is attached to a channel, and the counter by which a
    dispatch finds out that all its messages have been processed. */
module Reactor {
  import opened Errno
  import opened Sequences

  const CHANNELS := 1024

  datatype Node = Node(fid: int, counts: seq<int>)

  // Attachments.

  /** `get_node`. */
  function NodeOf(nodes: seq<Node>, fid: int): (i: nat)
    ensures i <= |nodes|
    ensures i < |nodes| ==> nodes[i].fid == fid
    ensures forall j :: 0 <= j < i ==> nodes[j].fid != fid
  {
    FirstWhere(nodes, (n: Node) => n.fid == fid)
  }

  /** How often a fusionee is attached to a channel. */
  function Attached(nodes: seq<Node>, fid: int, channel: nat): int {
    var i := NodeOf(nodes, fid);
    if i < |nodes| && channel < |nodes[i].counts| then nodes[i].counts[channel] else 0
  }

  /** One node per fusionee, and none for a fusionee that is attached to nothing. */
  ghost predicate WellFormed(nodes: seq<Node>) {
    && (forall i, j :: 0 <= i < j < |nodes| ==> nodes[i].fid != nodes[j].fid)
    && (forall i :: 0 <= i < |nodes| ==> Busy(nodes[i].counts))
  }

  ghost predicate Busy(counts: seq<int>) {
    exists c :: 0 <= c < |counts| && counts[c] != 0
  }

  /** A dispatch goes to every fusionee but the sender that is attached to the channel. */
  function Recipients(nodes: seq<Node>, sender: int, channel: nat): seq<int> {
    if nodes == [] then []
    else
      var n := nodes[0];
      (if n.fid != sender && channel < |n.counts| && n.counts[channel] != 0 then [n.fid] else [])
      + Recipients(nodes[1..], sender, channel)
  }

  lemma {:induction false} RecipientsExactly(nodes: seq<Node>, sender: int, channel: nat)
    requires forall i, j :: 0 <= i < j < |nodes| ==> nodes[i].fid != nodes[j].fid
    ensures forall fid :: multiset(Recipients(nodes, sender, channel))[fid] ==
                          if fid != sender && Attached(nodes, fid, channel) != 0 then 1 else 0
  {
    if nodes == [] {
    } else {
      var n, rest := nodes[0], nodes[1..];
      RecipientsExactly(rest, sender, channel);
      assert NodeOf(rest, n.fid) == |rest|;
      forall fid
        ensures Attached(nodes, fid, channel) ==
                if fid != n.fid then Attached(rest, fid, channel)
                else if channel < |n.counts| then n.counts[channel] else 0
      {
      }
    }
  }

  ghost predicate NonNegative(nodes: seq<Node>) {
    forall i, c :: 0 <= i < |nodes| && 0 <= c < |nodes[i].counts| ==> nodes[i].counts[c] >= 0
  }

  lemma CountsSet(nodes: seq<Node>, i: nat, counts: seq<int>, f: int, c: nat)
    requires i < |nodes| && WellFormed(nodes)
    ensures Attached(nodes[i := Node(nodes[i].fid, counts)], f, c) ==
            if f == nodes[i].fid then (if c < |counts| then counts[c] else 0) else Attached(nodes, f, c)
  {
    var after := nodes[i := Node(nodes[i].fid, counts)];
    var j, k := NodeOf(nodes, f), NodeOf(after, f);
    assert j < |nodes| ==> after[j].fid == f;
    assert k < |nodes| ==> nodes[k].fid == f;
  }

  lemma NodeAdded(nodes: seq<Node>, n: Node, f: int, c: nat)
    requires NodeOf(nodes, n.fid) == |nodes|
    ensures Attached([n] + nodes, f, c) ==
            if f == n.fid then (if c < |n.counts| then n.counts[c] else 0) else Attached(nodes, f, c)
  {
    assert ([n] + nodes)[1..] == nodes;
  }

  lemma NodeRemoved(nodes: seq<Node>, i: nat, f: int, c: nat)
    requires i < |nodes| && WellFormed(nodes)
    ensures Attached(nodes[..i] + nodes[i + 1..], f, c) == if f == nodes[i].fid then 0 else Attached(nodes, f, c)
  {
    var after := nodes[..i] + nodes[i + 1..];
    var j, k := NodeOf(nodes, f), NodeOf(after, f);
    assert forall m :: 0 <= m < |after| ==> after[m] == nodes[if m < i then m else m + 1];
    assert j < |nodes| && j != i ==> after[if j < i then j else j - 1].fid == f;
  }

  /** One attachment more or less, or none, and everything else as before. */
  ghost predicate Changed(before: seq<Node>, after: seq<Node>, fid: int, channel: int, diff: int) {
    forall f, c: nat {:trigger Attached(after, f, c)} ::
      Attached(after, f, c) == Attached(before, f, c) + if f == fid && c == channel then diff else 0
  }

  lemma AddNode(nodes: seq<Node>, n: Node, channel: nat)
    requires WellFormed(nodes) && NonNegative(nodes) && NodeOf(nodes, n.fid) == |nodes|
    requires channel < |n.counts| && forall c :: 0 <= c < |n.counts| ==> n.counts[c] == if c == channel then 1 else 0
    ensures WellFormed([n] + nodes) && NonNegative([n] + nodes) && Changed(nodes, [n] + nodes, n.fid, channel, 1)
  {
    AddedWellFormed(nodes, n, channel);
    forall f, c: nat
      ensures Attached([n] + nodes, f, c) == Attached(nodes, f, c) + if f == n.fid && c == channel then 1 else 0
    {
      NodeAdded(nodes, n, f, c);
    }
  }

  lemma AddedWellFormed(nodes: seq<Node>, n: Node, channel: nat)
    requires WellFormed(nodes) && NonNegative(nodes) && NodeOf(nodes, n.fid) == |nodes|
    requires channel < |n.counts| && forall c :: 0 <= c < |n.counts| ==> n.counts[c] == if c == channel then 1 else 0
    ensures WellFormed([n] + nodes) && NonNegative([n] + nodes)
  {
    assert n.counts[channel] != 0;
    assert forall i :: 0 < i <= |nodes| ==> ([n] + nodes)[i] == nodes[i - 1];
  }

  /** One count of an array, which may have grown, changes by `diff`. */
  ghost predicate Bumped(was: seq<int>, counts: seq<int>, channel: nat, diff: int) {
    && channel < |counts| && |was| <= |counts|
    && forall c :: 0 <= c < |counts| ==>
         counts[c] == (if c < |was| then was[c] else 0) + (if c == channel then diff else 0)
  }

  lemma SetNode(nodes: seq<Node>, i: nat, counts: seq<int>, channel: nat, diff: int)
    requires i < |nodes| && WellFormed(nodes) && NonNegative(nodes) && Bumped(nodes[i].counts, counts, channel, diff)
    requires diff == 1 || (diff == -1 && Busy(counts))
    ensures var after := nodes[i := Node(nodes[i].fid, counts)];
            && WellFormed(after) && Changed(nodes, after, nodes[i].fid, channel, diff)
            && (NonNegative(after) <==> diff == 1 || Attached(nodes, nodes[i].fid, channel) > 0)
  {
    SetWellFormed(nodes, i, counts, channel, diff);
    SetNonNegative(nodes, i, counts, channel, diff);
    var after := nodes[i := Node(nodes[i].fid, counts)];
    forall f, c: nat
      ensures Attached(after, f, c) == Attached(nodes, f, c) + if f == nodes[i].fid && c == channel then diff else 0
    {
      SetAttached(nodes, i, counts, channel, diff, f, c);
    }
  }

  lemma SetAttached(nodes: seq<Node>, i: nat, counts: seq<int>, channel: nat, diff: int, f: int, c: nat)
    requires i < |nodes| && WellFormed(nodes) && Bumped(nodes[i].counts, counts, channel, diff)
    ensures Attached(nodes[i := Node(nodes[i].fid, counts)], f, c)
         == Attached(nodes, f, c) + if f == nodes[i].fid && c == channel then diff else 0
  {
    CountsSet(nodes, i, counts, f, c);
    OwnCount(nodes, i, c);
  }

  lemma OwnCount(nodes: seq<Node>, i: nat, c: nat)
    requires i < |nodes| && WellFormed(nodes)
    ensures Attached(nodes, nodes[i].fid, c) == if c < |nodes[i].counts| then nodes[i].counts[c] else 0
  {
    assert NodeOf(nodes, nodes[i].fid) == i;
  }

  lemma SetWellFormed(nodes: seq<Node>, i: nat, counts: seq<int>, channel: nat, diff: int)
    requires i < |nodes| && WellFormed(nodes) && NonNegative(nodes) && Bumped(nodes[i].counts, counts, channel, diff)
    requires diff == 1 || Busy(counts)
    ensures WellFormed(nodes[i := Node(nodes[i].fid, counts)])
  {
    if diff == 1 {
      assert counts[channel] != 0;
    }
  }

  lemma SetNonNegative(nodes: seq<Node>, i: nat, counts: seq<int>, channel: nat, diff: int)
    requires i < |nodes| && WellFormed(nodes) && NonNegative(nodes) && Bumped(nodes[i].counts, counts, channel, diff)
    requires diff == 1 || diff == -1
    ensures NonNegative(nodes[i := Node(nodes[i].fid, counts)])
            <==> diff == 1 || Attached(nodes, nodes[i].fid, channel) > 0
  {
    OwnCount(nodes, i, channel);
    var after := nodes[i := Node(nodes[i].fid, counts)];
    assert after[i].counts[channel] == counts[channel];
  }

  lemma RemoveNode(nodes: seq<Node>, i: nat, channel: nat)
    requires i < |nodes| && WellFormed(nodes) && NonNegative(nodes)
    requires channel < |nodes[i].counts|
    requires forall c :: 0 <= c < |nodes[i].counts| ==> nodes[i].counts[c] == if c == channel then 1 else 0
    ensures var after := nodes[..i] + nodes[i + 1..];
            && WellFormed(after) && NonNegative(after) && Changed(nodes, after, nodes[i].fid, channel, -1)
            && Attached(nodes, nodes[i].fid, channel) > 0
  {
    var after := nodes[..i] + nodes[i + 1..];
    assert forall m :: 0 <= m < |after| ==> after[m] == nodes[if m < i then m else m + 1];
    forall f, c: nat
      ensures Attached(after, f, c) == Attached(nodes, f, c) - if f == nodes[i].fid && c == channel then 1 else 0
    {
      NodeRemoved(nodes, i, f, c);
      CountsSet(nodes, i, nodes[i].counts, f, c);
      assert nodes[i := Node(nodes[i].fid, nodes[i].counts)] == nodes;
    }
  }

  method Idle(counts: seq<int>) returns (idle: bool)
    ensures idle <==> !Busy(counts)
  {
    for k := 0 to |counts|
      invariant forall j :: 0 <= j < k ==> counts[j] == 0
    {
      if counts[k] != 0 {
        return false;
      }
    }
    return true;
  }

  /** A fusionee attached to channel 0 only, whose detaching from channel 1 succeeds: it leaves a
      count of minus one. */
  lemma DetachBelowZero()
    ensures var nodes := [Node(7, [1, 0, 0, 0])];
            && WellFormed(nodes) && NonNegative(nodes)
            && NodeOf(nodes, 7) < |nodes| && 1 < |nodes[NodeOf(nodes, 7)].counts|
            && forall after :: Changed(nodes, after, 7, 1, -1) ==> Attached(after, 7, 1) == -1
  {
    var nodes := [Node(7, [1, 0, 0, 0])];
    assert nodes[0].counts[0] != 0;
    assert NodeOf(nodes, 7) == 0;
    forall after | Changed(nodes, after, 7, 1, -1)
      ensures Attached(after, 7, 1) == -1
    {
      assert Attached(after, 7, 1) == Attached(nodes, 7, 1) - 1;
    }
  }

  class FusionReactor {
    var nodes: seq<Node>
    var destroyed: bool

    constructor ()
      ensures WellFormed(nodes) && NonNegative(nodes) && nodes == [] && !destroyed
    {
      nodes, destroyed := [], false;
    }

    method Attach(fid: int, channel: int, oom: bool) returns (status: Status)
      requires WellFormed(nodes) && NonNegative(nodes)
      modifies this`nodes
      ensures WellFormed(nodes) && NonNegative(nodes)
      ensures status == (if channel < 0 || channel >= CHANNELS then Einval
                         else if destroyed then Eidrm
                         else var i := NodeOf(old(nodes), fid);
                              if oom && (i == |old(nodes)| || |old(nodes)[i].counts| <= channel) then Enomem else Ok)
      ensures Changed(old(nodes), nodes, fid, channel, if status == Ok then 1 else 0)
    {
      if channel < 0 || channel >= CHANNELS {
        return Einval;
      }
      if destroyed {
        return Eidrm;
      }
      var i := NodeOf(nodes, fid);
      if i == |nodes| {
        if oom {
          return Enomem;
        }
        var n := Node(fid, Repeat(channel + 4, 0)[channel := 1]);
        AddNode(nodes, n, channel);
        nodes := [n] + nodes;
        return Ok;
      }
      var counts := nodes[i].counts;
      if |counts| <= channel {
        if oom {
          return Enomem;
        }
        counts := counts + Repeat(channel + 4 - |counts|, 0);
      }
      counts := counts[channel := counts[channel] + 1];
      SetNode(nodes, i, counts, channel, 1);
      nodes := nodes[i := Node(fid, counts)];
      return Ok;
    }

    /** The loop of a dispatch: from node `from` on, the next one to send to. */
    method NextRecipient(from: nat, sender: int, channel: nat) returns (i: nat)
      requires from <= |nodes|
      ensures from <= i <= |nodes|
      ensures Recipients(nodes[from..], sender, channel) ==
              if i < |nodes| then [nodes[i].fid] + Recipients(nodes[i + 1..], sender, channel) else []
    {
      i := from;
      while i < |nodes| && (nodes[i].fid == sender || |nodes[i].counts| <= channel || nodes[i].counts[channel] == 0)
        invariant from <= i <= |nodes|
        invariant Recipients(nodes[from..], sender, channel) == Recipients(nodes[i..], sender, channel)
      {
        assert nodes[i..][1..] == nodes[i + 1..];
        i := i + 1;
      }
      assert i < |nodes| ==> nodes[i..][1..] == nodes[i + 1..];
    }

    /** Detaching from a channel one is not attached to is noticed only if the node's
        array does not reach that far; otherwise the count becomes negative. */
    method Detach(fid: int, channel: int) returns (status: Status, gone: bool)
      requires WellFormed(nodes) && NonNegative(nodes)
      modifies this`nodes
      ensures WellFormed(nodes)
      ensures status == (if channel < 0 || channel >= CHANNELS then Einval
                         else var i := NodeOf(old(nodes), fid);
                              if i == |old(nodes)| || |old(nodes)[i].counts| <= channel then Eio else Ok)
      ensures Changed(old(nodes), nodes, fid, channel, if status == Ok then -1 else 0)
      ensures NonNegative(nodes) <==> (status == Ok ==> Attached(old(nodes), fid, channel) > 0)
      ensures gone <==> status == Ok && destroyed && nodes == []
    {
      if channel < 0 || channel >= CHANNELS {
        return Einval, false;
      }
      var i := NodeOf(nodes, fid);
      if i == |nodes| || |nodes[i].counts| <= channel {
        return Eio, false;
      }
      var counts := nodes[i].counts;
      counts := counts[channel := counts[channel] - 1];
      var idle := false;
      if counts[channel] == 0 {
        idle := Idle(counts);
      }
      if idle {
        forall c | 0 <= c < |counts|
          ensures nodes[i].counts[c] == if c == channel then 1 else 0
        {
          assert counts[c] == 0;
        }
        RemoveNode(nodes, i, channel);
        nodes := nodes[..i] + nodes[i + 1..];
      } else {
        SetNode(nodes, i, counts, channel, -1);
        nodes := nodes[i := Node(fid, counts)];
      }
      return Ok, destroyed && nodes == [];
    }
  }

  // Dispatching.

  /** The object that counts the messages of one dispatch. `calls` says how often the
      completion call was executed. */
  datatype Dispatch = Dispatch(count: int, calls: nat, freed: bool)

  const NEW_DISPATCH := Dispatch(0, 0, false)

  function Counted(d: Dispatch): Dispatch {
    d.(count := d.count + 1)
  }

  function Finished(d: Dispatch): Dispatch {
    if d.count == 0 then d.(calls := d.calls + 1, freed := true) else d
  }

  /** The message callback. */
  function CalledBack(d: Dispatch): Dispatch {
    Finished(d.(count := d.count - 1))
  }

  class ReactorDispatch {
    var d: Dispatch

    constructor ()
      ensures d == NEW_DISPATCH
    {
      d := NEW_DISPATCH;
    }

    method Count()
      modifies this
      ensures d == Counted(old(d))
    {
      d := d.(count := d.count + 1);
    }

    method MessageCallback()
      modifies this
      ensures d == CalledBack(old(d))
    {
      d := d.(count := d.count - 1);
      if d.count == 0 {
        d := d.(calls := d.calls + 1, freed := true);
      }
    }

    /** What follows the loop over the nodes. */
    method EndLoop()
      modifies this
      ensures d == Finished(old(d))
    {
      if d.count == 0 {
        d := d.(calls := d.calls + 1, freed := true);
      }
    }
  }

  /** A dispatch to `all`: the send to `todo[0]` is under way and may be asleep; the
      callbacks of `pending` have not run yet, those of `ran` have, and the sends to
      `failed` have failed. */
  datatype Job = Job(d: Dispatch, all: seq<int>, todo: seq<int>, pending: seq<int>, ran: seq<int>, failed: seq<int>)

  /** One atomic step: up to the next send, or a callback. */
  datatype Event = Sent | SendFailed | Callback(i: nat)

  function Started(all: seq<int>): Job {
    Job(if all == [] then Finished(NEW_DISPATCH) else Counted(NEW_DISPATCH), all, all, [], [], [])
  }

  ghost predicate Enabled(j: Job, e: Event) {
    match e
    case Sent => j.todo != []
    case SendFailed => j.todo != []
    case Callback(i) => i < |j.pending|
  }

  /** The loop goes on to the next send, counting it first, or ends. */
  function Resumed(d: Dispatch, todo: seq<int>): Dispatch {
    if todo != [] then Counted(d) else Finished(d)
  }

  function Step(j: Job, e: Event): Job
    requires Enabled(j, e)
  {
    match e
    case Sent =>
      j.(d := Resumed(j.d, j.todo[1..]), todo := j.todo[1..], pending := j.pending + [j.todo[0]])
    case SendFailed =>
      j.(d := Resumed(j.d, j.todo[1..]), todo := j.todo[1..], failed := j.failed + [j.todo[0]])
    case Callback(i) =>
      j.(d := CalledBack(j.d), pending := j.pending[..i] + j.pending[i + 1..], ran := j.ran + [j.pending[i]])
  }

  /** The counter counts the callbacks to come and the send under way; a failed send is
      never taken off again. */
  ghost predicate Inv(j: Job) {
    && j.d.count == |j.pending| + (if j.todo != [] then 1 else 0) + |j.failed|
    && j.d.calls == (if j.d.count == 0 then 1 else 0)
    && (j.d.freed <==> j.d.count == 0)
    && multiset(j.all) == multiset(j.ran) + multiset(j.pending) + multiset(j.todo) + multiset(j.failed)
  }

  lemma CallbackKeepsInv(j: Job, i: nat)
    requires Inv(j) && i < |j.pending|
    ensures Inv(Step(j, Callback(i)))
  {
    WithoutOne(j.pending, i);
  }

  lemma SendKeepsInv(j: Job, e: Event)
    requires Inv(j) && j.todo != [] && !e.Callback?
    ensures Inv(Step(j, e))
  {
    assert j.todo == [j.todo[0]] + j.todo[1..];
  }

  /** A step keeps the invariant, and does not touch the object after it was freed. */
  lemma StepKeepsInv(j: Job, e: Event)
    requires Inv(j) && Enabled(j, e)
    ensures Inv(Step(j, e)) && !j.d.freed
  {
    match e
    case Callback(i) => CallbackKeepsInv(j, i);
    case _ => SendKeepsInv(j, e);
  }

  ghost predicate StepAt(js: seq<Job>, es: seq<Event>, i: nat)
    requires i < |es| < |js|
  {
    Enabled(js[i], es[i]) && js[i + 1] == Step(js[i], es[i])
  }

  ghost predicate IsRun(all: seq<int>, js: seq<Job>, es: seq<Event>) {
    |js| == |es| + 1 && js[0] == Started(all) && forall i :: 0 <= i < |es| ==> StepAt(js, es, i)
  }

  lemma {:induction false} RunKeepsInv(all: seq<int>, js: seq<Job>, es: seq<Event>, i: nat)
    requires IsRun(all, js, es) && i <= |es|
    ensures Inv(js[i]) && js[i].all == all
    ensures i < |es| ==> !js[i].d.freed
  {
    if i == 0 {
    } else {
      RunKeepsInv(all, js, es, i - 1);
      assert StepAt(js, es, i - 1);
      StepKeepsInv(js[i - 1], es[i - 1]);
    }
    if i < |es| {
      assert StepAt(js, es, i);
      StepKeepsInv(js[i], es[i]);
    }
  }

  /** The completion call is executed once, and only when every recipient's callback
      has run; and it is executed then, unless a send failed. */
  lemma CompletesExactlyOnce(all: seq<int>, js: seq<Job>, es: seq<Event>, i: nat)
    requires IsRun(all, js, es) && i <= |es|
    ensures js[i].d.calls == if multiset(js[i].ran) == multiset(all) then 1 else 0
    ensures js[i].todo != [] ==> js[i].d.count > 0
    ensures js[i].todo == [] && js[i].pending == [] ==> (js[i].d.calls == 1 <==> js[i].failed == [])
  {
    RunKeepsInv(all, js, es, i);
    var j := js[i];
    assert |multiset(all)| == |multiset(j.ran)| + |multiset(j.pending)| + |multiset(j.todo)| + |multiset(j.failed)|;
  }

  /** The completion call of a dispatch comes when exactly the fusionees attached to the channel, but
      for the sender, have had their callback run, once each. */
  lemma CompletesWhenAllHaveRun(nodes: seq<Node>, sender: int, channel: nat, js: seq<Job>, es: seq<Event>, i: nat)
    requires forall a, b :: 0 <= a < b < |nodes| ==> nodes[a].fid != nodes[b].fid
    requires IsRun(Recipients(nodes, sender, channel), js, es) && i <= |es|
    ensures js[i].d.calls == 1 <==>
            forall fid :: multiset(js[i].ran)[fid] == if fid != sender
                && Attached(nodes, fid, channel) != 0 then 1 else 0
  {
    var all := Recipients(nodes, sender, channel);
    RecipientsExactly(nodes, sender, channel);
    CompletesExactlyOnce(all, js, es, i);
    if forall fid :: multiset(js[i].ran)[fid] == multiset(all)[fid] {
      assert multiset(js[i].ran) == multiset(all);
    }
  }
}
