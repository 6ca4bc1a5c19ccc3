/** The calls and skirmishes of one device, stepped as call.c steps them. Each method is one
    atomic piece of a synchronous call, and does to the objects what module `Rpc` says the
    step does to the world; in the states `Rpc` allows, no assertion in it can fail. */
module Device {
  import opened Errno
  import opened Call
  import opened Skirmish
  import L = Lending
  import R = Rpc

  // What the steps do, as far as the objects go.

  lemma SentStep(w: R.World, pid: int)
    requires R.Inv(w) && R.Legal(w, R.Sent(pid))
    ensures R.Waits(w, pid) && w.lending.pending[pid].callee == w.calls[w.inCall[pid]].owner
    ensures w.lending.pending[pid].serial == R.ExecutionOf(w, pid).serial
    ensures var p, t := w.lending.pending[pid], R.Step(w, R.Sent(pid));
            && t.calls == w.calls
            && t.lending.locks == LentAll(w.lending.locks, p.callee, p.fid, pid, p.serial)
    ensures forall id :: id in w.lending.locks ==> LendAsserts(w.lending.locks[id], pid)
  {
    assert R.Waits(w, pid) && R.CallInv(w, w.inCall[pid]);
    assert R.Tied(w, w.inCall[pid], R.ExecutionOf(w, pid));
    L.StepKeepsInv(w.lending, L.Sent(pid));
  }

  /** The serial of the execution a return completes is the one its caller's loans carry. */
  lemma ReturnStep(w: R.World, e: R.Event)
    requires R.Inv(w) && R.Legal(w, e) && e.Return? && R.Accepts(w, e.callId, e.serial)
    ensures var caller, t := R.Addressee(w, e.callId, e.serial), R.Step(w, e);
            && t.calls == w.calls[e.callId := Answered(w.calls[e.callId], e.serial, e.val)]
            && t.lending.locks == ReturnedAll(w.lending.locks, e.fid, caller, e.serial)
            && forall id :: id in w.lending.locks ==> ReturnAsserts(w.lending.locks[id], e.fid, caller, e.serial)
  {
    assert R.CallInv(w, e.callId);
    var xs := w.calls[e.callId].executions;
    assert R.Tied(w, e.callId, xs[FirstPending(xs, e.serial)]);
    L.StepKeepsInv(w.lending, R.OnLocks(w, e));
  }

  lemma WakeStep(w: R.World, pid: int)
    requires R.Inv(w) && R.Legal(w, R.Wake(pid))
    ensures var c, t := w.inCall[pid], R.Step(w, R.Wake(pid));
            && t.calls == w.calls[c := Finished(w.calls[c], pid)]
            && t.lending.locks == ReclaimedAll(w.lending.locks, pid)
    ensures forall id :: id in w.lending.locks ==> ReclaimAsserts(w.lending.locks[id], pid)
  {
    L.StepKeepsInv(w.lending, L.Reclaim(pid));
  }

  class FusionDev {
    var calls: map<int, FusionCall>
    const skirmishes: Skirmishes

    constructor ()
      ensures Valid() && Shows(R.INIT)
    {
      calls := map[];
      skirmishes := new Skirmishes();
    }

    ghost predicate Valid()
      reads this, calls.Values, skirmishes, skirmishes.table.Values
    {
      skirmishes.Valid() && CallsValid()
    }

    ghost predicate CallsValid()
      reads this, calls.Values
    {
      forall c :: c in calls ==> calls[c].id == c
    }

    ghost function Calls(): (cs: map<int, CallState>)
      reads this, calls.Values
      ensures cs.Keys == calls.Keys
    {
      map c | c in calls :: calls[c].Value()
    }

    /** The objects are in the state of the world `w`. */
    ghost predicate Shows(w: R.World)
      reads this, calls.Values, skirmishes, skirmishes.table.Values
    {
      Calls() == w.calls && skirmishes.Locks() == w.lending.locks
    }

    // The pieces of each step on the objects: first the call, then the locks.

    method Begin(pid: int, callId: int, oom: bool) returns (status: Status)
      requires Valid() && callId in calls && 0 <= calls[callId].serial < U32
      modifies calls.Values
      ensures Valid() && skirmishes.Locks() == old(skirmishes.Locks())
      ensures status == if oom then Enomem else Ok
      ensures var c := old(Calls())[callId];
              Calls() == old(Calls())[callId := if oom then c.(serial := NextSerial(c.serial)) else Begun(c, pid)]
    {
      assert forall c :: c in calls && c != callId ==> calls[c].id != calls[callId].id;
      status := calls[callId].Begin(pid, oom);
    }

    method Answer(callId: int, serial: int, val: int) returns (status: Status, caller: int)
      requires Valid() && callId in calls && serial != 0
      requires forall i :: 0 <= i < |Calls()[callId].executions| ==> !Calls()[callId].executions[i].signalled
      modifies calls.Values
      ensures Valid() && skirmishes.Locks() == old(skirmishes.Locks())
      ensures Calls() == old(Calls())[callId := Answered(old(Calls())[callId], serial, val)]
      ensures var xs := old(Calls())[callId].executions;
              && status == (if FirstPending(xs, serial) < |xs| then Ok else Enomsg)
              && (status == Ok ==> caller == xs[FirstPending(xs, serial)].caller)
    {
      assert forall c :: c in calls && c != callId ==> calls[c].id != calls[callId].id;
      status, caller := calls[callId].Return(serial, val);
    }

    method Finish(pid: int, callId: int) returns (val: int)
      requires Valid() && callId in calls
      requires OfCaller(Calls()[callId].executions, pid) < |Calls()[callId].executions|
      modifies calls.Values
      ensures Valid() && skirmishes.Locks() == old(skirmishes.Locks())
      ensures Calls() == old(Calls())[callId := Finished(old(Calls())[callId], pid)]
      ensures var xs := old(Calls())[callId].executions; val == xs[OfCaller(xs, pid)].val
    {
      assert forall c :: c in calls && c != callId ==> calls[c].id != calls[callId].id;
      val := calls[callId].Finish(pid);
    }

    method TransferLocks(to: int, from: int, pid: int, serial: int) returns (held: bool)
      requires Valid()
      modifies skirmishes.table.Values
      ensures Valid() && Calls() == old(Calls())
      ensures skirmishes.Locks() == LentAll(old(skirmishes.Locks()), to, from, pid, serial)
      ensures var ls := old(skirmishes.Locks()); held <==> forall id :: id in ls ==> LendAsserts(ls[id], pid)
    {
      held := skirmishes.TransferAll(to, from, pid, serial);
    }

    method ReturnLocks(from: int, pid: int, serial: int) returns (held: bool)
      requires Valid()
      modifies skirmishes.table.Values
      ensures Valid() && Calls() == old(Calls())
      ensures skirmishes.Locks() == ReturnedAll(old(skirmishes.Locks()), from, pid, serial)
      ensures var ls := old(skirmishes.Locks()); held <==>
              forall id :: id in ls ==> ReturnAsserts(ls[id], from, pid, serial)
    {
      held := skirmishes.ReturnAll(from, pid, serial);
    }

    method ReclaimLocks(pid: int) returns (held: bool)
      requires Valid()
      modifies skirmishes.table.Values
      ensures Valid() && Calls() == old(Calls())
      ensures skirmishes.Locks() == ReclaimedAll(old(skirmishes.Locks()), pid)
      ensures var ls := old(skirmishes.Locks()); held <==> forall id :: id in ls ==> ReclaimAsserts(ls[id], pid)
    {
      held := skirmishes.ReclaimAll(pid);
    }

    // The steps.

    /** The start of `fusion_call_execute`, up to the sending of the message. Without memory for
        the execution it leaves the state that a call without result leaves. */
    method Execute(pid: int, ghost fid: int, callId: int, oom: bool, ghost w: R.World) returns (status: Status)
      requires Valid() && Shows(w) && R.Inv(w)
      requires R.Legal(w, if oom then R.OneWay(callId) else R.Execute(pid, fid, callId))
      modifies calls.Values
      ensures Valid() && Shows(R.Step(w, if oom then R.OneWay(callId) else R.Execute(pid, fid, callId)))
      ensures status == if callId !in calls then Einval else if oom then Enomem else Ok
    {
      if callId !in calls {
        return Einval;
      }
      assert Calls()[callId] == w.calls[callId];
      status := Begin(pid, callId, oom);
    }

    /** Once the message is in the queue: what the thread holds is lent. */
    method Sent(pid: int, fid: int, callId: int, serial: int, ghost w: R.World) returns (held: bool)
      requires Valid() && Shows(w) && R.Inv(w) && R.Legal(w, R.Sent(pid))
      requires R.Waits(w, pid) && w.inCall[pid] == callId && serial == R.ExecutionOf(w, pid).serial
      requires w.lending.pending[pid].fid == fid
      modifies skirmishes.table.Values
      ensures Valid() && Shows(R.Step(w, R.Sent(pid)))
      ensures held
    {
      SentStep(w, pid);
      assert Calls()[callId] == w.calls[callId];
      held := TransferLocks(calls[callId].owner, fid, pid, serial);
    }

    /** `fusion_call_return`. */
    method Return(fid: int, callId: int, serial: int, val: int, ghost w: R.World) returns (status: Status, held: bool)
      requires Valid() && Shows(w) && R.Inv(w) && R.Legal(w, R.Return(fid, callId, serial, val))
      modifies calls.Values, skirmishes.table.Values
      ensures Valid() && Shows(R.Step(w, R.Return(fid, callId, serial, val)))
      ensures status == (if serial == 0 then Eopnotsupp else if callId !in calls then Einval
                         else if R.Accepts(w, callId, serial) then Ok else Enomsg)
      ensures held
    {
      held := true;
      if serial == 0 {
        return Eopnotsupp, held;
      }
      if callId !in calls {
        return Einval, held;
      }
      var caller;
      status, caller := Answer(callId, serial, val);
      if status == Ok {
        ReturnStep(w, R.Return(fid, callId, serial, val));
        held := ReturnLocks(fid, caller, serial);
      }
    }

    /** The end of `fusion_call_execute`, when the thread has been woken. */
    method Wake(pid: int, callId: int, ghost w: R.World) returns (val: int, held: bool)
      requires Valid() && Shows(w) && R.Inv(w) && R.Legal(w, R.Wake(pid)) && w.inCall[pid] == callId
      modifies calls.Values, skirmishes.table.Values
      ensures Valid() && Shows(R.Step(w, R.Wake(pid)))
      ensures val == R.ExecutionOf(w, pid).val
      ensures held
    {
      WakeStep(w, pid);
      val := Finish(pid, callId);
      held := ReclaimLocks(pid);
    }
  }
}
