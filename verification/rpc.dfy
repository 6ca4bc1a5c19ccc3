/** Synchronous calls and lock lending together: the executions of every call, and the
    lending protocol driven by them. A world step is one atomic piece of
    `fusion_call_execute` or `fusion_call_return`, or a step on the locks alone. */
module Rpc {
  import opened Call
  import opened Sequences
  import L = Lending

  datatype World = World(
    lending: L.State,
    calls: map<int, CallState>,
    callIds: int,
    inCall: map<int, int>)  // the call in which a thread is asleep

  datatype Event =
    | Locks(e: L.Event)
    | NewCall(owner: int)
    | DestroyCall(callId: int)
    | OneWay(callId: int)
    | Execute(pid: int, fid: int, callId: int)
    | SendFailed(pid: int)
    | Sent(pid: int)
    | Return(fid: int, callId: int, serial: int, val: int)
    | Wake(pid: int)

  const INIT := World(L.INIT, map[], 0, map[])

  /** A return is accepted when an execution is still waiting under that serial. */
  ghost predicate Accepts(w: World, callId: int, serial: int) {
    && serial != 0
    && callId in w.calls
    && FirstPending(w.calls[callId].executions, serial) < |w.calls[callId].executions|
  }

  /** The thread whose execution an accepted return completes. */
  ghost function Addressee(w: World, callId: int, serial: int): int
    requires Accepts(w, callId, serial)
  {
    var xs := w.calls[callId].executions;
    xs[FirstPending(xs, serial)].caller
  }

  /** The execution a sleeping thread waits for. */
  ghost predicate Waits(w: World, pid: int) {
    && pid in w.inCall && w.inCall[pid] in w.calls
    && OfCaller(w.calls[w.inCall[pid]].executions, pid) < |w.calls[w.inCall[pid]].executions|
  }

  ghost function ExecutionOf(w: World, pid: int): Execution
    requires Waits(w, pid)
  {
    var xs := w.calls[w.inCall[pid]].executions;
    xs[OfCaller(xs, pid)]
  }

  /** What the step does to the lending protocol. */
  ghost function OnLocks(w: World, e: Event): L.Event
    requires InRange(w)
  {
    match e
    case Locks(l) => l
    case Execute(pid, fid, callId) =>
      if callId in w.calls then L.Begin(pid, fid, w.calls[callId].owner, NextSerial(w.calls[callId].serial)) else L.Idle
    case SendFailed(pid) => L.SendFailed(pid)
    case Sent(pid) => L.Sent(pid)
    case Return(fid, callId, serial, _) =>
      if Accepts(w, callId, serial) then L.Return(fid, Addressee(w, callId, serial)) else L.Idle
    case Wake(pid) => L.Reclaim(pid)
    case _ => L.Idle
  }

  ghost predicate LocksOnly(e: L.Event) {
    e.Create? || e.Destroy? || e.Prevail? || e.Dismiss? || e.Read?
  }

  ghost predicate InRange(w: World) {
    forall c :: c in w.calls ==> 0 <= w.calls[c].serial < U32
  }

  /** The kernel's own guarantees and the callee's discipline. */
  ghost predicate Allowed(w: World, e: Event) {
    && InRange(w)
    && L.Legal(w.lending, OnLocks(w, e))
    && match e
       case Locks(l) => LocksOnly(l)
       case NewCall(owner) => owner > 0
       case DestroyCall(callId) => callId in w.calls ==> w.calls[callId].executions == []
       case SendFailed(pid) => Waits(w, pid)
       case Wake(pid) => Waits(w, pid) && ExecutionOf(w, pid).executed
       case _ => true
  }

  /** And a call does not reach a serial one of its executions still has. */
  ghost predicate Legal(w: World, e: Event) {
    Allowed(w, e) && (e.Execute? && e.callId in w.calls ==> Fresh(w.calls[e.callId]))
  }

  ghost predicate Fresh(c: CallState)
    requires 0 <= c.serial < U32
  {
    forall i :: 0 <= i < |c.executions| ==> c.executions[i].serial != NextSerial(c.serial)
  }

  ghost function Step(w: World, e: Event): World
    requires Allowed(w, e)
  {
    var lending := L.Step(w.lending, OnLocks(w, e));
    match e
    case Locks(_) => w.(lending := lending)
    case NewCall(owner) =>
      w.(callIds := w.callIds + 1, calls := w.calls[w.callIds + 1 := CallState(owner, 0, [])])
    case DestroyCall(callId) => w.(calls := w.calls - {callId})
    case OneWay(callId) =>
      if callId !in w.calls then w
      else w.(calls := w.calls[callId := w.calls[callId].(serial := NextSerial(w.calls[callId].serial))])
    case Execute(pid, _, callId) =>
      if callId !in w.calls then w
      else World(lending, w.calls[callId := Begun(w.calls[callId], pid)], w.callIds, w.inCall[pid := callId])
    case Sent(_) => w.(lending := lending)
    case Return(_, callId, serial, val) =>
      if Accepts(w, callId, serial) then
        w.(lending := lending, calls := w.calls[callId := Answered(w.calls[callId], serial, val)])
      else w
    case SendFailed(pid) => Left(w, lending, pid)
    case Wake(pid) => Left(w, lending, pid)
  }

  ghost function Left(w: World, lending: L.State, pid: int): World
    requires Waits(w, pid)
  {
    var callId := w.inCall[pid];
    World(lending, w.calls[callId := Finished(w.calls[callId], pid)], w.callIds, w.inCall - {pid})
  }

  /** An execution in the list of call `c` is what its caller's thread sleeps on. */
  ghost predicate Tied(w: World, c: int, x: Execution) {
    && x.caller in w.lending.pending
    && x.caller in w.inCall && w.inCall[x.caller] == c
    && c in w.calls
    && var p := w.lending.pending[x.caller];
       && p.serial == x.serial
       && p.callee == w.calls[c].owner
       && (x.executed <==> p.phase == L.Done)
  }

  ghost predicate CallInv(w: World, c: int)
    requires c in w.calls
  {
    var xs := w.calls[c].executions;
    && w.calls[c].owner > 0
    && (forall i :: 0 <= i < |xs| ==> Tied(w, c, xs[i]) && xs[i].serial != 0 && !xs[i].signalled)
    && (forall i, j :: 0 <= i < j < |xs| ==> xs[i].serial != xs[j].serial && xs[i].caller != xs[j].caller)
  }

  ghost predicate Inv(w: World) {
    && InRange(w)
    && L.Inv(w.lending)
    && (forall c :: c in w.calls ==> c <= w.callIds && CallInv(w, c))
    && (forall pid :: pid in w.lending.pending ==> Waits(w, pid))
  }

  // Each step, seen from one call and from one sleeping thread.

  lemma BegunCall(w: World, e: Event, c: int)
    requires Inv(w) && Legal(w, e) && e.Execute? && e.callId in w.calls && c in w.calls
    ensures CallInv(Step(w, e), c)
  {
    assert CallInv(w, c);
    var t, xs, ys := Step(w, e), w.calls[c].executions, Step(w, e).calls[c].executions;
    forall i | 0 <= i < |ys|
      ensures Tied(t, c, ys[i]) && ys[i].serial != 0 && !ys[i].signalled
      ensures i < |xs| ==> ys[i] == xs[i]
    {
      if i < |xs| {
        assert Tied(w, c, xs[i]) && ys[i] == xs[i];
      }
    }
    if c == e.callId {
      BegunDistinct(w.calls[c], e.pid);
    }
  }

  lemma BegunDistinct(c: CallState, pid: int)
    requires 0 <= c.serial < U32 && Fresh(c)
    requires forall i, j :: 0 <= i < j < |c.executions| ==>
               c.executions[i].serial != c.executions[j].serial && c.executions[i].caller != c.executions[j].caller
    requires forall i :: 0 <= i < |c.executions| ==> c.executions[i].caller != pid
    ensures var ys := Begun(c, pid).executions;
            forall i, j :: 0 <= i < j < |ys| ==> ys[i].serial != ys[j].serial && ys[i].caller != ys[j].caller
  {
  }

  lemma BegunThread(w: World, e: Event, pid: int)
    requires Inv(w) && Legal(w, e) && e.Execute? && e.callId in w.calls
    requires pid in Step(w, e).lending.pending
    ensures Waits(Step(w, e), pid)
  {
    var xs, ys := w.calls[e.callId].executions, Step(w, e).calls[e.callId].executions;
    if pid == e.pid {
      assert ys[|xs|].caller == pid;
    } else {
      assert Waits(w, pid);
      var i := OfCaller(w.calls[w.inCall[pid]].executions, pid);
      assert w.inCall[pid] == e.callId ==> ys[i] == xs[i];
    }
  }

  lemma AnsweredCall(w: World, lending: L.State, callId: int, serial: int, val: int, c: int)
    requires Inv(w) && Accepts(w, callId, serial) && c in w.calls
    requires Addressee(w, callId, serial) in w.lending.pending
    requires var a := Addressee(w, callId, serial);
             lending.pending == w.lending.pending[a := w.lending.pending[a].(phase := L.Done)]
    ensures CallInv(w.(lending := lending, calls := w.calls[callId := Answered(w.calls[callId], serial, val)]), c)
  {
    assert CallInv(w, c);
    assert CallInv(w, callId);
  }

  lemma AnsweredThread(w: World, e: Event, pid: int)
    requires Inv(w) && Legal(w, e) && e.Return? && Accepts(w, e.callId, e.serial)
    requires pid in Step(w, e).lending.pending
    ensures Waits(Step(w, e), pid)
  {
    assert Waits(w, pid);
    var i := OfCaller(w.calls[w.inCall[pid]].executions, pid);
    assert Step(w, e).calls[w.inCall[pid]].executions[i].caller == pid;
  }

  lemma FinishedAt(c: CallState, caller: int)
    requires OfCaller(c.executions, caller) < |c.executions|
    ensures |Finished(c, caller).executions| == |c.executions| - 1
    ensures forall i :: 0 <= i < |c.executions| - 1 ==>
              Finished(c, caller).executions[i] == c.executions[if i < OfCaller(c.executions, caller) then i else i + 1]
  {
    LeftOut(c.executions, OfCaller(c.executions, caller));
  }

  lemma LeftCall(w: World, lending: L.State, pid: int)
    requires Inv(w) && Waits(w, pid)
    requires lending.pending == w.lending.pending - {pid}
    ensures CallInv(Left(w, lending, pid), w.inCall[pid])
  {
    var c := w.inCall[pid];
    assert CallInv(w, c);
    FinishedAt(w.calls[c], pid);
    var xs, ys, k := w.calls[c].executions, Finished(w.calls[c], pid).executions, OfCaller(w.calls[c].executions, pid);
    forall i | 0 <= i < |ys|
      ensures Tied(Left(w, lending, pid), c, ys[i]) && ys[i].serial != 0 && !ys[i].signalled
    {
      var j := if i < k then i else i + 1;
      assert ys[i] == xs[j] && Tied(w, c, xs[j]);
      assert if j < k then xs[j].caller != xs[k].caller else xs[k].caller != xs[j].caller;
    }
    LeftDistinct(xs, ys, k);
  }

  lemma LeftDistinct(xs: seq<Execution>, ys: seq<Execution>, k: nat)
    requires k < |xs| && |ys| == |xs| - 1
    requires forall i :: 0 <= i < |ys| ==> ys[i] == xs[if i < k then i else i + 1]
    requires forall i, j :: 0 <= i < j < |xs| ==> xs[i].serial != xs[j].serial && xs[i].caller != xs[j].caller
    ensures forall i, j :: 0 <= i < j < |ys| ==> ys[i].serial != ys[j].serial && ys[i].caller != ys[j].caller
  {
  }

  lemma LeftOtherCall(w: World, lending: L.State, pid: int, c: int)
    requires Inv(w) && Waits(w, pid) && c in w.calls && c != w.inCall[pid]
    requires lending.pending == w.lending.pending - {pid}
    ensures CallInv(Left(w, lending, pid), c)
  {
    assert CallInv(w, c);
  }

  lemma LeftThread(w: World, lending: L.State, pid: int, other: int)
    requires Inv(w) && Waits(w, pid) && other in w.lending.pending && other != pid
    ensures Waits(Left(w, lending, pid), other)
  {
    assert Waits(w, other);
    var xs := w.calls[w.inCall[other]].executions;
    var i, k := OfCaller(xs, other), OfCaller(xs, pid);
    if w.inCall[other] == w.inCall[pid] {
      FinishedAt(w.calls[w.inCall[pid]], pid);
      assert Left(w, lending, pid).calls[w.inCall[pid]].executions[if i > k then i - 1 else i].caller == other;
    }
  }

  /** The same threads in the same calls, as far as the executions can tell. */
  ghost predicate SameCalls(p: map<int, L.Pending>, q: map<int, L.Pending>) {
    forall pid :: pid in p ==>
      && pid in q && q[pid].serial == p[pid].serial && q[pid].callee == p[pid].callee
      && (q[pid].phase == L.Done <==> p[pid].phase == L.Done)
  }

  lemma LocksSame(s: L.State, l: L.Event)
    requires L.Enabled(s, l) && (LocksOnly(l) || l.Sent?)
    ensures SameCalls(s.pending, L.Step(s, l).pending)
  {
  }

  lemma LocksCall(w: World, lending: L.State, c: int)
    requires c in w.calls && CallInv(w, c) && SameCalls(w.lending.pending, lending.pending)
    ensures CallInv(w.(lending := lending), c)
  {
  }

  lemma OtherCall(w: World, e: Event, c: int)
    requires Inv(w) && Legal(w, e)
    requires e.NewCall? || e.DestroyCall? || e.OneWay?
    requires c in Step(w, e).calls
    ensures CallInv(Step(w, e), c)
  {
    assert c in w.calls ==> CallInv(w, c);
  }

  lemma OtherThread(w: World, e: Event, pid: int)
    requires Inv(w) && Legal(w, e)
    requires e.Locks? || e.NewCall? || e.DestroyCall? || e.OneWay? || e.Sent?
    requires pid in Step(w, e).lending.pending
    ensures Waits(Step(w, e), pid)
  {
    assert Waits(w, pid);
    assert CallInv(w, w.inCall[pid]);
  }

  lemma OnlyLocks(w: World, e: Event, l: L.Event, c: int)
    requires Inv(w) && Legal(w, e) && (e.Locks? || e.Sent?) && l == OnLocks(w, e) && c in w.calls
    ensures CallInv(Step(w, e), c)
  {
    assert CallInv(w, c);
    LocksSame(w.lending, l);
    LocksCall(w, Step(w, e).lending, c);
  }

  lemma StepInRange(w: World, e: Event)
    requires Inv(w) && Legal(w, e)
    ensures InRange(Step(w, e))
    ensures forall c :: c in Step(w, e).calls ==> c <= Step(w, e).callIds
  {
  }

  lemma ExecuteKeepsCall(w: World, e: Event, c: int)
    requires Inv(w) && Legal(w, e) && e.Execute? && c in Step(w, e).calls
    ensures CallInv(Step(w, e), c)
  {
    if e.callId in w.calls {
      BegunCall(w, e, c);
    } else {
      assert CallInv(w, c);
    }
  }

  lemma ReturnKeepsCall(w: World, e: Event, c: int)
    requires Inv(w) && Legal(w, e) && e.Return? && c in Step(w, e).calls
    ensures CallInv(Step(w, e), c)
  {
    if Accepts(w, e.callId, e.serial) {
      AnsweredCall(w, Step(w, e).lending, e.callId, e.serial, e.val, c);
    } else {
      assert CallInv(w, c);
    }
  }

  lemma LeaveKeepsCall(w: World, e: Event, c: int)
    requires Inv(w) && Legal(w, e) && (e.SendFailed? || e.Wake?) && c in Step(w, e).calls
    ensures CallInv(Step(w, e), c)
  {
    if c == w.inCall[e.pid] {
      LeftCall(w, Step(w, e).lending, e.pid);
    } else {
      LeftOtherCall(w, Step(w, e).lending, e.pid, c);
    }
  }

  lemma StepKeepsCalls(w: World, e: Event, c: int)
    requires Inv(w) && Legal(w, e) && c in Step(w, e).calls
    ensures CallInv(Step(w, e), c)
  {
    match e
    case Execute(_, _, _) => ExecuteKeepsCall(w, e, c);
    case Return(_, _, _, _) => ReturnKeepsCall(w, e, c);
    case SendFailed(_) => LeaveKeepsCall(w, e, c);
    case Wake(_) => LeaveKeepsCall(w, e, c);
    case Locks(l) => OnlyLocks(w, e, l, c);
    case Sent(pid) => OnlyLocks(w, e, L.Sent(pid), c);
    case _ => OtherCall(w, e, c);
  }

  lemma StepKeepsThreads(w: World, e: Event, pid: int)
    requires Inv(w) && Legal(w, e) && pid in Step(w, e).lending.pending
    ensures Waits(Step(w, e), pid)
  {
    match e
    case Execute(_, _, callId) => if callId in w.calls { BegunThread(w, e, pid); }
    case Return(_, callId, serial, _) => if Accepts(w, callId, serial) { AnsweredThread(w, e, pid); }
    case SendFailed(p) => LeftThread(w, Step(w, e).lending, p, pid);
    case Wake(p) => LeftThread(w, Step(w, e).lending, p, pid);
    case _ => OtherThread(w, e, pid);
  }

  lemma StepKeepsInv(w: World, e: Event)
    requires Inv(w) && Legal(w, e)
    ensures Inv(Step(w, e))
  {
    L.StepKeepsInv(w.lending, OnLocks(w, e));
    StepInRange(w, e);
    forall c | c in Step(w, e).calls
      ensures CallInv(Step(w, e), c)
    {
      StepKeepsCalls(w, e, c);
    }
    forall pid | pid in Step(w, e).lending.pending
      ensures Waits(Step(w, e), pid)
    {
      StepKeepsThreads(w, e, pid);
    }
  }

  // Whole runs.

  ghost predicate IsRun(ws: seq<World>, es: seq<Event>) {
    && |ws| == |es| + 1
    && ws[0] == INIT
    && forall i :: 0 <= i < |es| ==> StepAt(ws, es, i)
  }

  ghost predicate StepAt(ws: seq<World>, es: seq<Event>, i: nat)
    requires i < |es| < |ws|
  {
    Legal(ws[i], es[i]) && ws[i + 1] == Step(ws[i], es[i])
  }

  lemma {:induction false} RunKeepsInv(ws: seq<World>, es: seq<Event>, i: nat)
    requires IsRun(ws, es) && i <= |es|
    ensures Inv(ws[i])
  {
    if i == 0 {
    } else {
      RunKeepsInv(ws, es, i - 1);
      assert StepAt(ws, es, i - 1);
      StepKeepsInv(ws[i - 1], es[i - 1]);
    }
  }

  ghost function Lendings(ws: seq<World>): (ss: seq<L.State>)
    ensures |ss| == |ws| && forall i :: 0 <= i < |ws| ==> ss[i] == ws[i].lending
  {
    seq(|ws|, i requires 0 <= i < |ws| => ws[i].lending)
  }

  ghost function LendingEvents(ws: seq<World>, es: seq<Event>): (ls: seq<L.Event>)
    requires IsRun(ws, es)
    ensures |ls| == |es|
    ensures forall i :: 0 <= i < |es| ==> StepAt(ws, es, i) && ls[i] == OnLocks(ws[i], es[i])
  {
    seq(|es|, i requires 0 <= i < |es| => assert StepAt(ws, es, i); OnLocks(ws[i], es[i]))
  }

  /** Every run of calls is, on the locks, a run of the lending protocol, so all that is
      proved of lending holds here. */
  lemma RunRefinesLending(ws: seq<World>, es: seq<Event>)
    requires IsRun(ws, es)
    ensures L.IsRun(Lendings(ws), LendingEvents(ws, es))
  {
    var ss, ls := Lendings(ws), LendingEvents(ws, es);
    forall i | 0 <= i < |es|
      ensures L.StepAt(ss, ls, i)
    {
      assert StepAt(ws, es, i);
    }
  }

  /** A return completes an execution of this serial. */
  ghost predicate Completes(w: World, e: Event, callId: int, serial: int) {
    e.Return? && e.callId == callId && e.serial == serial && Accepts(w, callId, serial)
  }

  /** The thread that began a call at step `i` is still asleep in it at step `k`. */
  ghost predicate Calling(ws: seq<World>, es: seq<Event>, i: nat, k: nat, pid: int, callId: int) {
    && IsRun(ws, es)
    && i < k <= |es|
    && es[i].Execute? && es[i].pid == pid && es[i].callId == callId && callId in ws[i].calls
    && forall m :: i < m < k ==> es[m] != Wake(pid) && es[m] != SendFailed(pid)
  }

  ghost predicate Unanswered(ws: seq<World>, es: seq<Event>, i: nat, k: nat, callId: int, serial: int)
    requires |ws| == |es| + 1 && k <= |es|
  {
    forall m :: i < m < k ==> !Completes(ws[m], es[m], callId, serial)
  }

  /** How one step changes the execution of a thread that stays asleep. */
  lemma BegunBeside(w: World, e: Event, pid: int)
    requires Inv(w) && Legal(w, e) && Waits(w, pid) && e.Execute? && e.callId in w.calls
    ensures Waits(Step(w, e), pid) && Step(w, e).inCall[pid] == w.inCall[pid]
    ensures ExecutionOf(Step(w, e), pid) == ExecutionOf(w, pid)
  {
    var c := w.inCall[pid];
    assert CallInv(w, c);
    var xs := w.calls[c].executions;
    assert Tied(w, c, ExecutionOf(w, pid));
    assert Step(w, e).calls[c].executions[..|xs|] == xs;
    assert Step(w, e).calls[c].executions[OfCaller(xs, pid)] == xs[OfCaller(xs, pid)];
  }

  lemma AnsweredBeside(w: World, e: Event, pid: int)
    requires Inv(w) && Legal(w, e) && Waits(w, pid) && e.Return?
    ensures Waits(Step(w, e), pid) && Step(w, e).inCall[pid] == w.inCall[pid]
    ensures ExecutionOf(Step(w, e), pid) == ExecutionAfter(w, e, pid)
  {
    var c := w.inCall[pid];
    assert CallInv(w, c);
    if Accepts(w, e.callId, e.serial) && e.callId == c {
      AnsweredExecution(w.calls[c].executions, e.serial, e.val, pid);
    }
  }

  lemma StepOnExecution(w: World, e: Event, pid: int)
    requires Inv(w) && Legal(w, e) && Waits(w, pid) && e != Wake(pid) && e != SendFailed(pid)
    ensures Waits(Step(w, e), pid) && Step(w, e).inCall[pid] == w.inCall[pid]
    ensures ExecutionOf(Step(w, e), pid) == ExecutionAfter(w, e, pid)
  {
    var c := w.inCall[pid];
    assert CallInv(w, c);
    var xs := w.calls[c].executions;
    match e
    case Execute(_, _, callId) =>
      if callId in w.calls {
        BegunBeside(w, e, pid);
      }
    case Return(_, callId, serial, val) => AnsweredBeside(w, e, pid);
    case SendFailed(p) => LeftExecution(w, Step(w, e).lending, p, pid);
    case Wake(p) => LeftExecution(w, Step(w, e).lending, p, pid);
    case DestroyCall(callId) => assert callId != c;
    case _ => assert Step(w, e).calls[c].executions == xs;
  }

  ghost function ExecutionAfter(w: World, e: Event, pid: int): Execution
    requires Waits(w, pid)
  {
    var x := ExecutionOf(w, pid);
    if Completes(w, e, w.inCall[pid], x.serial) then x.(executed := true, val := e.val) else x
  }

  lemma AnsweredExecution(xs: seq<Execution>, serial: int, val: int, pid: int)
    requires forall i, j :: 0 <= i < j < |xs| ==> xs[i].serial != xs[j].serial
    requires OfCaller(xs, pid) < |xs| && FirstPending(xs, serial) < |xs| && !xs[FirstPending(xs, serial)].signalled
    ensures var ys := Answered(CallState(0, 0, xs), serial, val).executions;
            var i := OfCaller(xs, pid);
            && OfCaller(ys, pid) == i
            && ys[i] == if xs[i].serial == serial then xs[i].(executed := true, val := val) else xs[i]
  {
    var ys := Answered(CallState(0, 0, xs), serial, val).executions;
    assert ys[OfCaller(xs, pid)].caller == pid;
    assert OfCaller(ys, pid) < |ys| ==> xs[OfCaller(ys, pid)].caller == pid;
  }

  lemma LeftExecution(w: World, lending: L.State, pid: int, other: int)
    requires Inv(w) && Waits(w, pid) && Waits(w, other) && other != pid
    ensures Waits(Left(w, lending, pid), other)
    ensures ExecutionOf(Left(w, lending, pid), other) == ExecutionOf(w, other)
  {
    var c := w.inCall[other];
    if c == w.inCall[pid] {
      RemainingExecution(w.calls[c].executions, OfCaller(w.calls[c].executions, pid), other);
    }
  }

  /** Taking the execution of one caller out leaves that of another. */
  lemma RemainingExecution(xs: seq<Execution>, k: nat, other: int)
    requires k < |xs| && xs[k].caller != other && OfCaller(xs, other) < |xs|
    ensures var ys := xs[..k] + xs[k + 1..];
            OfCaller(ys, other) < |ys| && ys[OfCaller(ys, other)] == xs[OfCaller(xs, other)]
  {
    var ys, j := xs[..k] + xs[k + 1..], OfCaller(xs, other);
    LeftOut(xs, k);
    var at := if j < k then j else j - 1;
    assert ys[at] == xs[j];
    forall m | 0 <= m < at
      ensures ys[m].caller != other
    {
      assert ys[m] == xs[if m < k then m else m + 1];
    }
  }

  /** While a thread is asleep in its call, its execution stands unexecuted under its own
      serial until one return completes it. `m` is the step of that return, or `k`. */
  lemma {:induction false} ExecutionStands(ws: seq<World>, es: seq<Event>, i: nat, k: nat, pid: int, callId: int)
    returns (serial: int, m: nat)
    requires Calling(ws, es, i, k, pid, callId)
    ensures Inv(ws[i]) && serial == NextSerial(ws[i].calls[callId].serial)
    ensures Waits(ws[k], pid) && ws[k].inCall[pid] == callId && ExecutionOf(ws[k], pid).serial == serial
    ensures i < m <= k
    ensures m == k ==> !ExecutionOf(ws[k], pid).executed && Unanswered(ws, es, i, k, callId, serial)
    ensures m < k ==>
              && ExecutionOf(ws[k], pid).executed
              && Completes(ws[m], es[m], callId, serial) && es[m].val == ExecutionOf(ws[k], pid).val
              && Unanswered(ws, es, i, m, callId, serial) && Unanswered(ws, es, m, k, callId, serial)
    decreases k
  {
    if k == i + 1 {
      BegunExecution(ws, es, i);
      serial, m := NextSerial(ws[i].calls[callId].serial), k;
    } else {
      serial, m := ExecutionStands(ws, es, i, k - 1, pid, callId);
      StillExecuting(ws, es, k - 1, pid);
      if m == k - 1 && !Completes(ws[m], es[m], callId, serial) {
        m := k;
      }
    }
  }

  lemma StillExecuting(ws: seq<World>, es: seq<Event>, k: nat, pid: int)
    requires IsRun(ws, es) && k < |es|
    requires Waits(ws[k], pid) && es[k] != Wake(pid) && es[k] != SendFailed(pid)
    ensures Waits(ws[k + 1], pid) && ws[k + 1].inCall[pid] == ws[k].inCall[pid]
    ensures ExecutionOf(ws[k + 1], pid) == ExecutionAfter(ws[k], es[k], pid)
    ensures Completes(ws[k], es[k], ws[k].inCall[pid], ExecutionOf(ws[k], pid).serial) ==>
            !ExecutionOf(ws[k], pid).executed
  {
    RunKeepsInv(ws, es, k);
    assert StepAt(ws, es, k);
    StepOnExecution(ws[k], es[k], pid);
    assert CallInv(ws[k], ws[k].inCall[pid]);
  }

  lemma BegunExecution(ws: seq<World>, es: seq<Event>, i: nat)
    requires IsRun(ws, es) && i < |es| && es[i].Execute? && es[i].callId in ws[i].calls
    ensures Inv(ws[i])
    ensures Waits(ws[i + 1], es[i].pid) && ws[i + 1].inCall[es[i].pid] == es[i].callId
    ensures ExecutionOf(ws[i + 1], es[i].pid)
         == Execution(es[i].pid, NextSerial(ws[i].calls[es[i].callId].serial), false, 0, false)
  {
    RunKeepsInv(ws, es, i);
    assert StepAt(ws, es, i);
    assert CallInv(ws[i], es[i].callId);
    var xs := ws[i].calls[es[i].callId].executions;
    assert ws[i + 1].calls[es[i].callId].executions[|xs|].caller == es[i].pid;
  }

  /** A caller that wakes up with a result got it from the one return that named its
      serial: that return was accepted, carried this value, and no other was accepted. */
  lemma WokenByItsReturn(ws: seq<World>, es: seq<Event>, i: nat, j: nat, pid: int, callId: int)
    returns (serial: int, m: nat)
    requires j < |es| && Calling(ws, es, i, j, pid, callId) && es[j] == Wake(pid)
    ensures Inv(ws[i]) && serial == NextSerial(ws[i].calls[callId].serial) && serial != 0
    ensures i < m < j && Completes(ws[m], es[m], callId, serial)
    ensures Waits(ws[j], pid) && es[m].val == ExecutionOf(ws[j], pid).val
    ensures forall q :: i < q < j && Completes(ws[q], es[q], callId, serial) ==> q == m
  {
    serial, m := ExecutionStands(ws, es, i, j, pid, callId);
    assert StepAt(ws, es, j);
  }

  lemma AddressedTo(w: World, pid: int)
    requires Inv(w) && Waits(w, pid) && !ExecutionOf(w, pid).executed
    ensures var c, serial := w.inCall[pid], ExecutionOf(w, pid).serial;
            && Accepts(w, c, serial) && Addressee(w, c, serial) == pid
            && FirstPending(w.calls[c].executions, serial) == OfCaller(w.calls[c].executions, pid)
            && !ExecutionOf(w, pid).signalled
  {
    var c := w.inCall[pid];
    var xs := w.calls[c].executions;
    var i, k := OfCaller(xs, pid), FirstPending(xs, ExecutionOf(w, pid).serial);
    assert CallInv(w, c);
    assert k <= i;
  }

  /** An answer to one caller, seen from each of them. */
  lemma AnsweredOne(c: CallState, i: nat, val: int, pid: int)
    requires i < |c.executions| && !c.executions[i].signalled && FirstPending(c.executions, c.executions[i].serial) == i
    requires OfCaller(c.executions, pid) < |c.executions|
    ensures var xs, ys := c.executions, Answered(c, c.executions[i].serial, val).executions;
            var k := OfCaller(xs, pid);
            && OfCaller(ys, pid) == k < |ys|
            && ys[k] == if k == i then xs[i].(executed := true, val := val) else xs[k]
  {
    var xs, ys := c.executions, Answered(c, c.executions[i].serial, val).executions;
    var k := OfCaller(xs, pid);
    assert ys == xs[i := xs[i].(executed := true, val := val)];
    assert forall j :: 0 <= j < |xs| ==> ys[j].caller == xs[j].caller;
    assert ys[k].caller == pid;
  }

  /** The converse: in every state, a return that names the serial of a thread that still waits is
      accepted, goes to this thread and no other, and stores its value; the thread may then wake up. */
  lemma ReturnReachesCaller(w: World, pid: int, fid: int, val: int, other: int)
    requires Inv(w) && Waits(w, pid) && !ExecutionOf(w, pid).executed
    requires Legal(w, Return(fid, w.inCall[pid], ExecutionOf(w, pid).serial, val))
    requires other in w.lending.pending
    ensures var c, serial := w.inCall[pid], ExecutionOf(w, pid).serial;
            var t := Step(w, Return(fid, c, serial, val));
            && Accepts(w, c, serial) && Addressee(w, c, serial) == pid
            && Waits(w, other) && Waits(t, other)
            && ExecutionOf(t, other) == (if other == pid then ExecutionOf(w, pid).(executed := true, val := val)
                                         else ExecutionOf(w, other))
            && (other == pid ==> Legal(t, Wake(pid)))
  {
    var c, serial := w.inCall[pid], ExecutionOf(w, pid).serial;
    var e := Return(fid, c, serial, val);
    var t := Step(w, e);
    AddressedTo(w, pid);
    assert Waits(w, other);
    var i := OfCaller(w.calls[c].executions, pid);
    if w.inCall[other] == c {
      AnsweredOne(w.calls[c], i, val, other);
    }
    if other == pid {
      StepKeepsInv(w, e);
      MayWake(t, pid);
    }
  }

  lemma MayWake(w: World, pid: int)
    requires Inv(w) && pid in w.lending.pending && Waits(w, pid) && ExecutionOf(w, pid).executed
    ensures Legal(w, Wake(pid))
  {
    assert CallInv(w, w.inCall[pid]) && Tied(w, w.inCall[pid], ExecutionOf(w, pid));
  }

  /** A step on the locks that ends a thread's sleep is one that ends its call. */
  lemma OnlyCallsEnd(w: World, e: Event, pid: int)
    requires Legal(w, e)
    ensures OnLocks(w, e) == L.Reclaim(pid) <==> e == Wake(pid)
    ensures OnLocks(w, e) == L.SendFailed(pid) <==> e == SendFailed(pid)
  {
  }

  /** From execute to wake: whatever other threads and calls do in between, a caller has every lock
      again that it held when it called, with its recursion count and the loans below it. */
  lemma CallReturnsLocks(ws: seq<World>, es: seq<Event>, i: nat, j: nat, pid: int, callId: int, id: int)
    requires j < |es| && Calling(ws, es, i, j, pid, callId) && es[j] == Wake(pid)
    requires id in ws[i].lending.locks && id in ws[j + 1].lending.locks && ws[i].lending.locks[id].pid == pid
    ensures var was, now := ws[i].lending.locks[id], ws[j + 1].lending.locks[id];
            && now.pid == pid
            && now.count == was.count
            && now.fid == (if was.second.to == 0 then es[i].fid else was.fid)
            && L.SameSlot(now.first, was.first) && L.SameSlot(now.second, was.second)
  {
    var ss, ls := Lendings(ws), LendingEvents(ws, es);
    RunRefinesLending(ws, es);
    forall m | i <= m <= j
      ensures ls[m] == OnLocks(ws[m], es[m])
      ensures ls[m] == L.Reclaim(pid) <==> es[m] == Wake(pid)
      ensures ls[m] == L.SendFailed(pid) <==> es[m] == SendFailed(pid)
    {
      assert StepAt(ws, es, m);
      OnlyCallsEnd(ws[m], es[m], pid);
    }
    L.CallRoundTrip(ss, ls, i, j, pid, id);
  }

  /** In any reachable state the executions of a call have distinct, non-zero serials, so a
      serial names at most one of them. */
  lemma SerialsAreDistinct(ws: seq<World>, es: seq<Event>, i: nat, callId: int)
    requires IsRun(ws, es) && i <= |es| && callId in ws[i].calls
    ensures var xs := ws[i].calls[callId].executions;
            && (forall a :: 0 <= a < |xs| ==> xs[a].serial != 0)
            && (forall a, b :: 0 <= a < b < |xs| ==> xs[a].serial != xs[b].serial)
  {
    RunKeepsInv(ws, es, i);
    assert CallInv(ws[i], callId);
  }
}
