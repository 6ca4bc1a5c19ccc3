/** Lock lending across synchronous calls, as a transition system.

    Everything between two waits runs under one global lock, so a step is atomic.
    A thread that executes a synchronous call is asleep in the kernel from `Begin`
    to `Reclaim`; `pending` records where it sleeps: in the send of its message
    (nothing is lent yet), waiting for the result (its locks are lent), or with
    the result written but not yet woken. */
module Lending {
  import opened Skirmish

  datatype Phase = Sending | Waiting | Done

  datatype Pending = Pending(callee: int, serial: int, fid: int, phase: Phase)

  datatype State = State(
    locks: map<int, Lock>,
    ids: int,
    pending: map<int, Pending>,
    dispatchers: map<int, int>)

  datatype Event =
    | Idle
    | Create
    | Destroy(id: int)
    | Prevail(pid: int, fid: int, id: int)
    | Dismiss(pid: int, id: int)
    | Read(pid: int, fid: int)
    | Begin(pid: int, fid: int, callee: int, serial: int)
    | SendFailed(pid: int)
    | Sent(pid: int)
    | Return(fid: int, caller: int)
    | Reclaim(pid: int)

  ghost predicate Running(s: State, pid: int) {
    pid > 0 && pid !in s.pending
  }

  ghost predicate InPhase(s: State, pid: int, phase: Phase) {
    pid in s.pending && s.pending[pid].phase == phase
  }

  /** What the kernel itself guarantees of a step: real thread and fusion ids, and
      that only a thread that is not asleep acts. */
  ghost predicate Enabled(s: State, e: Event) {
    match e
    case Idle => true
    case Create => true
    case Destroy(_) => true
    case Prevail(pid, fid, _) => Running(s, pid) && fid > 0
    case Dismiss(pid, _) => Running(s, pid)
    case Read(pid, _) => Running(s, pid)
    case Begin(pid, fid, callee, _) => Running(s, pid) && fid > 0 && callee > 0
    case SendFailed(pid) => InPhase(s, pid, Sending)
    case Sent(pid) => InPhase(s, pid, Sending)
    case Return(_, caller) => InPhase(s, caller, Waiting)
    case Reclaim(pid) => InPhase(s, pid, Done)
  }

  ghost predicate LendsIn(loan: Loan, pid: int) {
    loan.to != 0 && loan.fromPid == pid
  }

  ghost predicate Lends(l: Lock, pid: int) {
    LendsIn(l.first, pid) || LendsIn(l.second, pid)
  }

  /** What the callee owes: it returns the call itself, with every lock the call lent
      dismissed again and nothing lent on top of it. */
  ghost predicate Disciplined(s: State, fid: int, caller: int)
    requires caller in s.pending
  {
    forall id :: id in s.locks && Lends(s.locks[id], caller) ==>
      fid == s.pending[caller].callee && LendsIn(s.locks[id].Top(), caller) && s.locks[id].pid == 0
  }

  ghost predicate Legal(s: State, e: Event) {
    Enabled(s, e) && (e.Return? ==> Disciplined(s, e.fid, e.caller))
  }

  /** The new state of each step. */
  ghost function Step(s: State, e: Event): State
    requires Enabled(s, e)
  {
    match e
    case Idle => s
    case Create => s.(ids := s.ids + 1, locks := s.locks[s.ids + 1 := FREE])
    case Destroy(id) => s.(locks := s.locks - {id})
    case Prevail(pid, fid, id) =>
      if id !in s.locks then s
      else s.(locks := s.locks[id := Prevailed(s.locks[id], s.dispatchers, pid, fid)])
    case Dismiss(pid, id) =>
      if id !in s.locks then s else s.(locks := s.locks[id := Dismissed(s.locks[id], pid)])
    case Read(pid, fid) => s.(dispatchers := s.dispatchers[fid := pid])
    case Begin(pid, fid, callee, serial) =>
      s.(pending := s.pending[pid := Pending(callee, serial, fid, Sending)])
    case SendFailed(pid) => s.(pending := s.pending - {pid})
    case Sent(pid) =>
      var p := s.pending[pid];
      s.(pending := s.pending[pid := p.(phase := Waiting)],
         locks := LentAll(s.locks, p.callee, p.fid, pid, p.serial))
    case Return(fid, caller) =>
      var p := s.pending[caller];
      s.(pending := s.pending[caller := p.(phase := Done)],
         locks := ReturnedAll(s.locks, fid, caller, p.serial))
    case Reclaim(pid) =>
      s.(pending := s.pending - {pid}, locks := ReclaimedAll(s.locks, pid))
  }

  /** Whether every assertion the step reaches holds. */
  ghost predicate Asserts(s: State, e: Event)
    requires Enabled(s, e)
  {
    match e
    case Sent(pid) => forall id :: id in s.locks ==> LendAsserts(s.locks[id], pid)
    case Return(fid, caller) =>
      forall id :: id in s.locks ==> ReturnAsserts(s.locks[id], fid, caller, s.pending[caller].serial)
    case Reclaim(pid) => forall id :: id in s.locks ==> ReclaimAsserts(s.locks[id], pid)
    case _ => true
  }

  /** A used slot names a call that is still in progress. */
  ghost predicate Backed(s: State, loan: Loan) {
    && loan.from > 0 && loan.fromPid > 0 && loan.count > 0
    && loan.fromPid in s.pending
    && s.pending[loan.fromPid].phase != Sending
    && s.pending[loan.fromPid].callee == loan.to
    && s.pending[loan.fromPid].serial == loan.serial
    && s.pending[loan.fromPid].fid == loan.from
  }

  ghost predicate SlotInv(s: State, loan: Loan) {
    if loan.to == 0 then SlotClear(loan) else Backed(s, loan)
  }

  ghost predicate LockInv(s: State, l: Lock) {
    && SlotInv(s, l.first)
    && SlotInv(s, l.second)
    // The second slot is used only above the first, for another lender, whose call is the inner one.
    && (l.second.to != 0 ==>
          && l.first.to != 0
          && l.first.fromPid != l.second.fromPid
          && s.pending[l.first.fromPid].phase == Waiting)
    // Free, taken, or returned and waiting for its lender.
    && (l.pid == 0 ==> l.fid == 0 && l.count == 0)
    && (l.pid != 0 && l.pid != RETURNED ==>
          && l.pid > 0 && l.fid > 0 && l.count > 0
          && l.pid != l.first.fromPid && l.pid != l.second.fromPid)
    && (l.pid == RETURNED ==> l.fid == 0 && l.count == 0 && l.first.to != 0)
    && (l.first.to != 0 ==> (l.pid == RETURNED <==> s.pending[l.Top().fromPid].phase == Done))
    // A caller keeps a lock only when both slots are taken.
    && (l.pid in s.pending && s.pending[l.pid].phase != Sending ==> l.second.to != 0)
  }

  ghost predicate Inv(s: State) {
    && (forall pid :: pid in s.pending ==> pid > 0 && s.pending[pid].fid > 0 && s.pending[pid].callee > 0)
    && (forall id :: id in s.locks ==> id <= s.ids && LockInv(s, s.locks[id]))
  }

  // One step, seen from one lock.

  lemma SentKeeps(s: State, pid: int, id: int)
    requires Inv(s) && Enabled(s, Sent(pid)) && id in s.locks
    ensures LockInv(Step(s, Sent(pid)), Step(s, Sent(pid)).locks[id])
    ensures LendAsserts(s.locks[id], pid)
  {
    assert LockInv(s, s.locks[id]);
  }

  lemma ReturnKeeps(s: State, fid: int, caller: int, id: int)
    requires Inv(s) && Legal(s, Return(fid, caller)) && id in s.locks
    ensures LockInv(Step(s, Return(fid, caller)), Step(s, Return(fid, caller)).locks[id])
    ensures ReturnAsserts(s.locks[id], fid, caller, s.pending[caller].serial)
  {
    assert LockInv(s, s.locks[id]);
  }

  lemma ReclaimKeeps(s: State, pid: int, id: int)
    requires Inv(s) && Enabled(s, Reclaim(pid)) && id in s.locks
    ensures LockInv(Step(s, Reclaim(pid)), Step(s, Reclaim(pid)).locks[id])
    ensures ReclaimAsserts(s.locks[id], pid)
  {
    assert LockInv(s, s.locks[id]);
  }

  lemma OtherStepKeeps(s: State, e: Event, id: int)
    requires Inv(s) && Enabled(s, e) && id in Step(s, e).locks
    requires !e.Sent? && !e.Return? && !e.Reclaim?
    ensures LockInv(Step(s, e), Step(s, e).locks[id])
  {
    if id in s.locks {
      assert LockInv(s, s.locks[id]);
    }
  }

  /** Every legal step keeps the invariant, and no assertion it reaches fails. */
  lemma StepKeepsInv(s: State, e: Event)
    requires Inv(s) && Legal(s, e)
    ensures Inv(Step(s, e)) && Asserts(s, e)
  {
    forall id | id in Step(s, e).locks
      ensures LockInv(Step(s, e), Step(s, e).locks[id])
      ensures e.Sent? ==> LendAsserts(s.locks[id], e.pid)
      ensures e.Return? ==> ReturnAsserts(s.locks[id], e.fid, e.caller, s.pending[e.caller].serial)
      ensures e.Reclaim? ==> ReclaimAsserts(s.locks[id], e.pid)
    {
      match e
      case Sent(pid) => SentKeeps(s, pid, id);
      case Return(fid, caller) => ReturnKeeps(s, fid, caller, id);
      case Reclaim(pid) => ReclaimKeeps(s, pid, id);
      case _ => OtherStepKeeps(s, e, id);
    }
  }

  // Whole runs.

  const INIT := State(map[], 0, map[], map[])

  ghost predicate IsRun(ss: seq<State>, es: seq<Event>) {
    && |ss| == |es| + 1
    && ss[0] == INIT
    && forall i :: 0 <= i < |es| ==> StepAt(ss, es, i)
  }

  ghost predicate StepAt(ss: seq<State>, es: seq<Event>, i: nat)
    requires i < |es| < |ss|
  {
    Legal(ss[i], es[i]) && ss[i + 1] == Step(ss[i], es[i])
  }

  /** Over every run, no assertion of transfer, return or reclaim can fail. */
  lemma {:induction false} RunsAreSafe(ss: seq<State>, es: seq<Event>, i: nat)
    requires IsRun(ss, es) && i <= |es|
    ensures Inv(ss[i])
    ensures i < |es| ==> StepAt(ss, es, i) && Asserts(ss[i], es[i])
  {
    if i == 0 {
    } else {
      RunsAreSafe(ss, es, i - 1);
      assert StepAt(ss, es, i - 1);
      StepKeepsInv(ss[i - 1], es[i - 1]);
    }
    if i < |es| {
      assert StepAt(ss, es, i);
      StepKeepsInv(ss[i], es[i]);
    }
  }

  /** Thread `pid` put its call through at step `i` and has not reclaimed before step `k`. */
  ghost predicate Asleep(ss: seq<State>, es: seq<Event>, i: nat, k: nat, pid: int) {
    && IsRun(ss, es)
    && i < k <= |es|
    && es[i] == Sent(pid) && StepAt(ss, es, i)
    && forall m :: i < m < k ==> es[m] != Reclaim(pid)
  }

  /** How the lock `was`, held by `pid` when its call `p` went out, must look until `pid` reclaims. */
  ghost predicate KeptFor(was: Lock, now: Lock, pid: int, p: Pending) {
    if was.first.to == 0 then
      now.first == Loan(p.callee, p.fid, pid, was.count, p.serial)
    else if was.second.to == 0 then
      now.first == was.first && now.second == Loan(p.callee, p.fid, pid, was.count, p.serial)
    else
      now == was
  }

  lemma StepKeepsLoan(s: State, e: Event, pid: int, id: int, was: Lock, p: Pending)
    requires Inv(s) && Legal(s, e) && e != Reclaim(pid)
    requires pid in s.pending && s.pending[pid].phase != Sending
    requires id in s.locks && id in Step(s, e).locks && id <= s.ids
    requires was.pid == pid && KeptFor(was, s.locks[id], pid, p)
    requires was.first.to == 0 || was.second.to == 0 ==> p.callee > 0
    ensures KeptFor(was, Step(s, e).locks[id], pid, p)
    ensures pid in Step(s, e).pending && Step(s, e).pending[pid].phase != Sending
  {
    assert LockInv(s, s.locks[id]);
  }

  lemma {:induction false} LoanStays(ss: seq<State>, es: seq<Event>, i: nat, k: nat, pid: int, id: int)
    requires Asleep(ss, es, i, k, pid)
    requires id in ss[i].locks && id in ss[k].locks && ss[i].locks[id].pid == pid
    ensures KeptFor(ss[i].locks[id], ss[k].locks[id], pid, ss[i].pending[pid])
    ensures pid in ss[k].pending && ss[k].pending[pid].phase != Sending
    ensures id <= ss[k].ids
    decreases k
  {
    RunsAreSafe(ss, es, i);
    RunsAreSafe(ss, es, k - 1);
    assert StepAt(ss, es, k - 1);
    if k == i + 1 {
    } else {
      IdsAreFresh(ss, es, i, k - 1, id);
      LoanStays(ss, es, i, k - 1, pid, id);
      StepKeepsLoan(ss[k - 1], es[k - 1], pid, id, ss[i].locks[id], ss[i].pending[pid]);
    }
  }

  /** A destroyed id never comes back. */
  lemma {:induction false} IdsAreFresh(ss: seq<State>, es: seq<Event>, i: nat, k: nat, id: int)
    requires IsRun(ss, es) && i <= k < |es| && id in ss[i].locks && id in ss[k + 1].locks
    ensures id in ss[k].locks && id <= ss[k].ids
  {
    IdsGrow(ss, es, i, k);
    RunsAreSafe(ss, es, i);
    assert StepAt(ss, es, k);
  }

  lemma {:induction false} IdsGrow(ss: seq<State>, es: seq<Event>, i: nat, k: nat)
    requires IsRun(ss, es) && i <= k <= |es|
    ensures ss[i].ids <= ss[k].ids
  {
    if i == k {
    } else {
      IdsGrow(ss, es, i, k - 1);
      assert StepAt(ss, es, k - 1);
    }
  }

  ghost predicate SameSlot(a: Loan, b: Loan) {
    a == b || a.to == b.to == 0
  }

  /** Whatever the other threads did in between, reclaim gives a caller back every lock
      it held when its call went out, with its recursion count and the loans below it. */
  lemma LendingRoundTrip(ss: seq<State>, es: seq<Event>, i: nat, j: nat, pid: int, id: int)
    requires j < |es| && Asleep(ss, es, i, j, pid) && es[j] == Reclaim(pid)
    requires id in ss[i].locks && id in ss[j + 1].locks && ss[i].locks[id].pid == pid
    ensures var was, now := ss[i].locks[id], ss[j + 1].locks[id];
            && now.pid == pid
            && now.count == was.count
            && now.fid == (if was.second.to == 0 then ss[i].pending[pid].fid else was.fid)
            && SameSlot(now.first, was.first) && SameSlot(now.second, was.second)
  {
    RunsAreSafe(ss, es, i);
    RunsAreSafe(ss, es, j);
    LoanStays(ss, es, i, j, pid, id);
    assert LockInv(ss[i], ss[i].locks[id]);
    assert LockInv(ss[j], ss[j].locks[id]);
  }

  // The same from the beginning of the call, while its message waits to be sent.

  /** Thread `pid` began a call at step `i`, and is still in it at step `k`. */
  ghost predicate InCall(ss: seq<State>, es: seq<Event>, i: nat, k: nat, pid: int) {
    && IsRun(ss, es)
    && i < k <= |es|
    && es[i].Begin? && es[i].pid == pid
    && forall m :: i < m < k ==> es[m] != Reclaim(pid) && es[m] != SendFailed(pid)
  }

  ghost predicate NotSent(es: seq<Event>, i: nat, k: nat, pid: int)
    requires k <= |es|
  {
    forall m :: i < m < k ==> es[m] != Sent(pid)
  }

  lemma StepKeepsPending(s: State, e: Event, pid: int)
    requires Inv(s) && Legal(s, e) && pid in s.pending && e != Reclaim(pid) && e != SendFailed(pid)
    ensures pid in Step(s, e).pending && Step(s, e).pending[pid].fid == s.pending[pid].fid
    ensures e == Sent(pid) ==> s.pending[pid].phase == Sending
    ensures Step(s, e).pending[pid].phase == Sending <==> s.pending[pid].phase == Sending && e != Sent(pid)
  {
  }

  /** Either the message is still to be sent, or there is the step `m` at which it was. */
  lemma {:induction false} SentOnce(ss: seq<State>, es: seq<Event>, i: nat, k: nat, pid: int) returns (m: nat)
    requires InCall(ss, es, i, k, pid)
    ensures pid in ss[k].pending && ss[k].pending[pid].fid == es[i].fid
    ensures i < m <= k && NotSent(es, i, m, pid)
    ensures if ss[k].pending[pid].phase == Sending then m == k else m < k && es[m] == Sent(pid)
    decreases k
  {
    assert StepAt(ss, es, k - 1);
    if k == i + 1 {
      m := k;
    } else {
      RunsAreSafe(ss, es, k - 1);
      m := SentOnce(ss, es, i, k - 1, pid);
      StepKeepsPending(ss[k - 1], es[k - 1], pid);
      if m == k - 1 && es[m] != Sent(pid) {
        m := k;
      }
    }
  }

  lemma StepKeepsHeld(s: State, e: Event, pid: int, id: int)
    requires Inv(s) && Legal(s, e) && InPhase(s, pid, Sending) && e != Sent(pid)
    requires id in s.locks && id in Step(s, e).locks && id <= s.ids && s.locks[id].pid == pid
    ensures Step(s, e).locks[id] == s.locks[id]
  {
    assert LockInv(s, s.locks[id]);
  }

  /** Until its message is sent, nobody touches what the caller holds. */
  lemma {:induction false} HeldUntilSent(ss: seq<State>, es: seq<Event>, i: nat, k: nat, pid: int, id: int)
    requires InCall(ss, es, i, k, pid) && NotSent(es, i, k, pid)
    requires id in ss[i].locks && id in ss[k].locks && ss[i].locks[id].pid == pid
    ensures ss[k].locks[id] == ss[i].locks[id] && InPhase(ss[k], pid, Sending)
    decreases k
  {
    RunsAreSafe(ss, es, k - 1);
    assert StepAt(ss, es, k - 1);
    if k == i + 1 {
    } else {
      IdsAreFresh(ss, es, i, k - 1, id);
      HeldUntilSent(ss, es, i, k - 1, pid, id);
      StepKeepsPending(ss[k - 1], es[k - 1], pid);
      StepKeepsHeld(ss[k - 1], es[k - 1], pid, id);
    }
  }

  lemma {:induction false} StillThere(ss: seq<State>, es: seq<Event>, i: nat, k: nat, j: nat, id: int)
    requires IsRun(ss, es) && i <= k <= j < |es| && id in ss[i].locks && id in ss[j + 1].locks
    ensures id in ss[k].locks
    decreases j
  {
    IdsAreFresh(ss, es, i, j, id);
    if k == j {
    } else {
      StillThere(ss, es, i, k, j - 1, id);
    }
  }

  /** From the beginning of a call to its end: a caller has every lock again that it held when it
      called, with its recursion count and the loans below it. */
  lemma CallRoundTrip(ss: seq<State>, es: seq<Event>, i: nat, j: nat, pid: int, id: int)
    requires j < |es| && InCall(ss, es, i, j, pid) && es[j] == Reclaim(pid)
    requires id in ss[i].locks && id in ss[j + 1].locks && ss[i].locks[id].pid == pid
    ensures var was, now := ss[i].locks[id], ss[j + 1].locks[id];
            && now.pid == pid
            && now.count == was.count
            && now.fid == (if was.second.to == 0 then es[i].fid else was.fid)
            && SameSlot(now.first, was.first) && SameSlot(now.second, was.second)
  {
    assert StepAt(ss, es, j);
    var m := SentOnce(ss, es, i, j, pid);
    var k := SentOnce(ss, es, i, m, pid);
    StillThere(ss, es, i, m, j, id);
    HeldUntilSent(ss, es, i, m, pid, id);
    assert StepAt(ss, es, m);
    LendingRoundTrip(ss, es, m, j, pid, id);
  }

  /** From transfer to reclaim, a lent lock can be taken only by the dispatcher of the
      topmost borrower, and only before the call has been returned. */
  lemma LentLockGoesToTopBorrower(ss: seq<State>, es: seq<Event>, i: nat, k: nat, pid: int, id: int, taker: int)
    requires k < |es| && Asleep(ss, es, i, k, pid) && es[k] != Reclaim(pid)
    requires id in ss[i].locks && id in ss[k].locks && id in ss[k + 1].locks
    requires ss[i].locks[id].pid == pid && ss[i].locks[id].second.to == 0
    requires ss[k].locks[id].pid != taker && ss[k + 1].locks[id].pid == taker && taker > 0
    ensures ss[k].locks[id].Top().to != 0 && InPhase(ss[k], pid, Waiting) && taker != pid
    ensures if es[k].Prevail? then
              taker == es[k].pid && taker == DispatcherPid(ss[k].dispatchers, ss[k].locks[id].Top().to)
            else
              es[k] == Reclaim(taker) && LendsIn(ss[k].locks[id].second, taker)
  {
    LoanStays(ss, es, i, k, pid, id);
    RunsAreSafe(ss, es, i);
    RunsAreSafe(ss, es, k);
    assert LockInv(ss[i], ss[i].locks[id]);
    assert LockInv(ss[k], ss[k].locks[id]);
  }

  /** Who that is: the thread that was the last to read the borrower's messages. */
  lemma {:induction false} DispatcherIsLastReader(ss: seq<State>, es: seq<Event>, i: nat, k: nat, pid: int, fid: int)
    requires IsRun(ss, es) && i < k <= |es| && es[i] == Read(pid, fid)
    requires forall m :: i < m < k ==> !(es[m].Read? && es[m].fid == fid)
    ensures DispatcherPid(ss[k].dispatchers, fid) == pid
    decreases k
  {
    assert StepAt(ss, es, k - 1);
    if k == i + 1 {
    } else {
      DispatcherIsLastReader(ss, es, i, k - 1, pid, fid);
    }
  }

  /** And he gets it: from transfer to reclaim, a thread that prevails on a lent lock obtains it if
      and only if the lock is free and the thread is the dispatcher of the topmost borrower, or the
      thread holds it already. */
  lemma BorrowerEntersExactly(ss: seq<State>, es: seq<Event>, i: nat, k: nat, pid: int, id: int)
    requires k < |es| && Asleep(ss, es, i, k, pid) && es[k].Prevail? && es[k].id == id
    requires id in ss[i].locks && id in ss[k].locks
    requires ss[i].locks[id].pid == pid && ss[i].locks[id].second.to == 0
    ensures var l, taker := ss[k].locks[id], es[k].pid;
            && id in ss[k + 1].locks && l.Top().to != 0
            && (ss[k + 1].locks[id].pid == taker <==>
                  l.pid == taker || (l.pid == 0 && DispatcherPid(ss[k].dispatchers, l.Top().to) == taker))
            && ss[k + 1].locks[id] == (if ss[k + 1].locks[id].pid != taker then l
                                       else if l.pid == taker then l.(count := l.count + 1)
                                       else Lock(es[k].fid, taker, 1, l.first, l.second))
            && (l.Top().fromPid == pid ==> l.Top().to == ss[i].pending[pid].callee)
  {
    LoanStays(ss, es, i, k, pid, id);
    RunsAreSafe(ss, es, i);
    RunsAreSafe(ss, es, k);
    assert StepAt(ss, es, k);
    assert LockInv(ss[i], ss[i].locks[id]);
    assert LockInv(ss[k], ss[k].locks[id]);
    PrevailsExactly(ss[k].locks[id], ss[k].dispatchers, es[k].pid, es[k].fid);
  }

  /** Once the call is returned nobody but the lender obtains the lock. */
  lemma ReturnedLockIsReserved(ss: seq<State>, es: seq<Event>, i: nat, k: nat, pid: int, id: int)
    requires k < |es| && Asleep(ss, es, i, k, pid) && es[k] != Reclaim(pid)
    requires id in ss[i].locks && id in ss[k].locks && id in ss[k + 1].locks
    requires ss[i].locks[id].pid == pid && ss[i].locks[id].second.to == 0
    requires InPhase(ss[k], pid, Done)
    ensures ss[k].locks[id].pid == RETURNED && ss[k + 1].locks[id] == ss[k].locks[id]
  {
    LoanStays(ss, es, i, k, pid, id);
    RunsAreSafe(ss, es, i);
    RunsAreSafe(ss, es, k);
    assert LockInv(ss[i], ss[i].locks[id]);
    assert LockInv(ss[k], ss[k].locks[id]);
  }

  // The recursion count.

  /** How many more times than it dismissed the lock the thread has prevailed on it, from step `i` to step `k`. */
  ghost function Balance(es: seq<Event>, i: nat, k: nat, pid: int, id: int): int
    requires i <= k <= |es|
  {
    if i == k then 0
    else
      Balance(es, i, k - 1, pid, id)
      + match es[k - 1]
        case Prevail(p, _, d) => if p == pid && d == id then 1 else 0
        case Dismiss(p, d) => if p == pid && d == id then -1 else 0
        case _ => 0
  }

  /** From step `i`, at which the thread holds the lock, to step `k` it sends no call and destroys
      nothing, and before step `k` it has not dismissed as often as it took the lock. */
  ghost predicate Holding(ss: seq<State>, es: seq<Event>, i: nat, k: nat, pid: int, id: int) {
    && IsRun(ss, es) && i <= k <= |es| && pid > 0
    && id in ss[i].locks && id in ss[k].locks && ss[i].locks[id].pid == pid
    && (forall m :: i <= m < k ==> es[m] != Sent(pid))
    && forall m {:trigger Balance(es, i, m, pid, id)} :: i < m < k ==>
         ss[i].locks[id].count + Balance(es, i, m, pid, id) > 0
  }

  lemma StepCounts(s: State, e: Event, pid: int, id: int)
    requires Inv(s) && Legal(s, e) && pid > 0 && e != Sent(pid)
    requires id in s.locks && id in Step(s, e).locks && id <= s.ids && s.locks[id].pid == pid
    ensures var n := s.locks[id].count
                     + match e
                       case Prevail(p, _, d) => if p == pid && d == id then 1 else 0
                       case Dismiss(p, d) => if p == pid && d == id then -1 else 0
                       case _ => 0;
            Step(s, e).locks[id] == if n > 0 then s.locks[id].(count := n)
                                    else Lock(0, 0, 0, s.locks[id].first, s.locks[id].second)
  {
    assert LockInv(s, s.locks[id]);
  }

  /** Over any run, whatever the others do, the count of a lock is how often its holder took it and
      did not dismiss it: it stays with the holder, with this count, until the count is zero, and
      is free then. */
  lemma {:induction false} CountIsBalance(ss: seq<State>, es: seq<Event>, i: nat, k: nat, pid: int, id: int)
    requires Holding(ss, es, i, k, pid, id)
    ensures var n, now := ss[i].locks[id].count + Balance(es, i, k, pid, id), ss[k].locks[id];
            && n >= 0 && now.count == n
            && now.pid == (if n > 0 then pid else 0) && now.fid == (if n > 0 then ss[i].locks[id].fid else 0)
            && now.first == ss[i].locks[id].first && now.second == ss[i].locks[id].second
    decreases k
  {
    RunsAreSafe(ss, es, i);
    assert LockInv(ss[i], ss[i].locks[id]);
    if i == k {
    } else {
      RunsAreSafe(ss, es, k - 1);
      IdsAreFresh(ss, es, i, k - 1, id);
      CountIsBalance(ss, es, i, k - 1, pid, id);
      assert StepAt(ss, es, k - 1);
      StepCounts(ss[k - 1], es[k - 1], pid, id);
    }
  }

  /** So a free lock that a thread took at step `i` is free again, as it was, exactly when the thread has
      dismissed it as often as it took it. */
  lemma TakenUntilDismissed(ss: seq<State>, es: seq<Event>, i: nat, k: nat, pid: int, id: int)
    requires Holding(ss, es, i + 1, k, pid, id) && es[i].Prevail? && es[i].pid == pid && es[i].id == id
    requires id in ss[i].locks && ss[i].locks[id].pid == 0
    ensures ss[k].locks[id].count == Balance(es, i, k, pid, id) >= 0
    ensures if Balance(es, i, k, pid, id) > 0 then ss[k].locks[id].pid == pid && ss[k].locks[id].fid == es[i].fid
            else ss[k].locks[id] == ss[i].locks[id]
  {
    RunsAreSafe(ss, es, i);
    assert StepAt(ss, es, i);
    assert LockInv(ss[i], ss[i].locks[id]);
    PrevailsExactly(ss[i].locks[id], ss[i].dispatchers, pid, es[i].fid);
    CountIsBalance(ss, es, i + 1, k, pid, id);
    BalanceFrom(es, i, k, pid, id);
  }

  lemma {:induction false} BalanceFrom(es: seq<Event>, i: nat, k: nat, pid: int, id: int)
    requires i < k <= |es| && es[i].Prevail? && es[i].pid == pid && es[i].id == id
    ensures Balance(es, i, k, pid, id) == 1 + Balance(es, i + 1, k, pid, id)
    decreases k
  {
    if k == i + 1 {
      assert Balance(es, i, i, pid, id) == 0;
    } else {
      BalanceFrom(es, i, k - 1, pid, id);
    }
  }

  // The callee's duty is exactly what the protocol needs.

  ghost predicate RoundTrips(s: State, fid: int, caller: int)
    requires Enabled(s, Return(fid, caller))
  {
    var t := Step(s, Return(fid, caller));
    && Asserts(s, Return(fid, caller))
    && Asserts(t, Reclaim(caller))
    && forall id :: id in s.locks && Lends(s.locks[id], caller) ==>
                      Step(t, Reclaim(caller)).locks[id].pid == caller
  }

  /** Returning and reclaiming a call passes every assertion and gives every lent lock
      back if and only if the callee returns it in a disciplined way. */
  lemma DisciplineIsExact(s: State, fid: int, caller: int)
    requires Inv(s) && Enabled(s, Return(fid, caller))
    ensures RoundTrips(s, fid, caller) <==> Disciplined(s, fid, caller)
  {
    var t := Step(s, Return(fid, caller));
    var serial := s.pending[caller].serial;
    forall id | id in s.locks
      ensures Lends(s.locks[id], caller) ==>
                ((&& ReturnAsserts(s.locks[id], fid, caller, serial)
                  && ReclaimAsserts(t.locks[id], caller)
                  && Reclaimed(t.locks[id], caller).pid == caller)
                 <==>
                 (&& fid == s.pending[caller].callee
                  && LendsIn(s.locks[id].Top(), caller)
                  && s.locks[id].pid == 0))
      ensures !Lends(s.locks[id], caller) ==>
                ReturnAsserts(s.locks[id], fid, caller, serial) && ReclaimAsserts(t.locks[id], caller)
    {
      assert LockInv(s, s.locks[id]);
    }
  }
}
