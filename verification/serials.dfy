/** When a call can run into a serial that is still in use. `Rpc` leaves such steps out of
    its runs; this module says exactly which they are. */
module Serials {
  import opened Call
  import opened Rpc
  import L = Lending

  /** The step draws a serial of call `c`. */
  ghost predicate DrawsFrom(w: World, e: Event, c: int) {
    && c in w.calls
    && match e
       case Execute(_, _, callId) => callId == c
       case OneWay(callId) => callId == c
       case _ => false
  }

  /** How many serials of call `c` were drawn in the first `k` steps. */
  ghost function Draws(ws: seq<World>, es: seq<Event>, c: int, k: nat): nat
    requires k <= |es| <= |ws|
  {
    if k == 0 then 0
    else Draws(ws, es, c, k - 1) + (if DrawsFrom(ws[k - 1], es[k - 1], c) then 1 else 0)
  }

  lemma StepOnSerial(w: World, e: Event, c: int)
    requires Inv(w) && Legal(w, e) && c in Step(w, e).calls
    ensures c in w.calls ==>
              Step(w, e).calls[c].serial == if DrawsFrom(w, e, c) then NextSerial(w.calls[c].serial)
                  else w.calls[c].serial
    ensures c !in w.calls ==> c > w.callIds && Step(w, e).calls[c].serial == 0 && !DrawsFrom(w, e, c)
  {
  }

  lemma {:induction false} NoneBefore(ws: seq<World>, es: seq<Event>, c: int, k: nat)
    requires IsRun(ws, es) && k <= |es| && c > ws[k].callIds
    ensures Draws(ws, es, c, k) == 0
  {
    if k == 0 {
    } else {
      RunKeepsInv(ws, es, k - 1);
      assert StepAt(ws, es, k - 1);
      NoneBefore(ws, es, c, k - 1);
    }
  }

  /** A call's serial tells how many have been drawn. */
  lemma {:induction false} SerialIsNth(ws: seq<World>, es: seq<Event>, c: int, k: nat)
    requires IsRun(ws, es) && k <= |es| && c in ws[k].calls
    ensures ws[k].calls[c].serial == NthSerial(Draws(ws, es, c, k))
  {
    if k == 0 {
    } else {
      RunKeepsInv(ws, es, k - 1);
      assert StepAt(ws, es, k - 1);
      StepOnSerial(ws[k - 1], es[k - 1], c);
      if c in ws[k - 1].calls {
        SerialIsNth(ws, es, c, k - 1);
      } else {
        NoneBefore(ws, es, c, k - 1);
      }
    }
  }

  lemma Sleeper(s: L.State, l: L.Event, pid: int)
    requires L.Enabled(s, l) && pid in L.Step(s, l).pending
    ensures pid in s.pending ==> l != L.SendFailed(pid) && l != L.Reclaim(pid)
    ensures pid !in s.pending ==> l.Begin? && l.pid == pid
  {
  }

  lemma SameLending(w: World, e: Event)
    requires Legal(w, e)
    ensures Step(w, e).lending == L.Step(w.lending, OnLocks(w, e))
  {
  }

  /** A thread is asleep after a step if it was before, or if the step is its call. */
  lemma StepOnSleeper(w: World, e: Event, pid: int)
    requires Inv(w) && Legal(w, e) && pid in Step(w, e).lending.pending
    ensures pid in w.lending.pending ==> e != Wake(pid) && e != SendFailed(pid) && Waits(w, pid)
    ensures pid !in w.lending.pending ==> e.Execute? && e.pid == pid && e.callId in w.calls
  {
    SameLending(w, e);
    Sleeper(w.lending, OnLocks(w, e), pid);
  }

  lemma StepOnInCall(w: World, e: Event, pid: int)
    requires Inv(w) && Legal(w, e) && pid in Step(w, e).lending.pending
    ensures pid in Step(w, e).inCall
    ensures pid in w.lending.pending ==> pid in w.inCall && Step(w, e).inCall[pid] == w.inCall[pid]
    ensures pid !in w.lending.pending ==> e.Execute? && Step(w, e).inCall[pid] == e.callId
  {
    StepOnSleeper(w, e, pid);
    if pid in w.lending.pending {
      StepOnExecution(w, e, pid);
    }
  }

  lemma StillCalling(ws: seq<World>, es: seq<Event>, i: nat, k: nat, pid: int, c: int)
    requires Calling(ws, es, i, k, pid, c) && k < |es| && es[k] != Wake(pid) && es[k] != SendFailed(pid)
    ensures Calling(ws, es, i, k + 1, pid, c)
  {
  }

  /** A thread that is asleep in a call began it at some step. */
  lemma {:induction false} BegunSometime(ws: seq<World>, es: seq<Event>, k: nat, pid: int) returns (i: nat)
    requires IsRun(ws, es) && k <= |es| && pid in ws[k].lending.pending
    ensures pid in ws[k].inCall && i < |es| && es[i].Execute? && es[i].pid == pid
    ensures Calling(ws, es, i, k, pid, ws[k].inCall[pid])
    decreases k
  {
    RunKeepsInv(ws, es, k - 1);
    assert StepAt(ws, es, k - 1);
    StepOnSleeper(ws[k - 1], es[k - 1], pid);
    StepOnInCall(ws[k - 1], es[k - 1], pid);
    if pid in ws[k - 1].lending.pending {
      i := BegunSometime(ws, es, k - 1, pid);
      StillCalling(ws, es, i, k - 1, pid, ws[k].inCall[pid]);
    } else {
      i := k - 1;
    }
  }

  /** The execution begun at step `i` is still in the list of call `c` at step `k`. */
  ghost predicate InFlight(ws: seq<World>, es: seq<Event>, i: nat, k: nat, c: int) {
    i < |es| && es[i].Execute? && Calling(ws, es, i, k, es[i].pid, c)
  }

  /** How many serials of `c` were drawn since step `i`. */
  ghost function Age(ws: seq<World>, es: seq<Event>, i: nat, k: nat, c: int): int
    requires i < |es| <= |ws| && k <= |es|
  {
    Draws(ws, es, c, k) - Draws(ws, es, c, i)
  }

  lemma SameNext(a: nat, b: nat)
    ensures NextSerial(NthSerial(a)) == NextSerial(NthSerial(b)) <==> (a - b) % (U32 - 1) == 0
  {
    assert NthSerial(a + 1) == NextSerial(NthSerial(a)) && NthSerial(b + 1) == NextSerial(NthSerial(b));
    SerialsCollideExactly(a + 1, b + 1);
  }

  /** The execution begun at step `i`, and the serial it has. */
  lemma SerialInFlight(ws: seq<World>, es: seq<Event>, i: nat, k: nat, c: int)
    requires InFlight(ws, es, i, k, c)
    ensures Waits(ws[k], es[i].pid) && ws[k].inCall[es[i].pid] == c
    ensures ExecutionOf(ws[k], es[i].pid).serial == NextSerial(NthSerial(Draws(ws, es, c, i)))
  {
    var serial, m := ExecutionStands(ws, es, i, k, es[i].pid, c);
    SerialIsNth(ws, es, c, i);
  }

  /** The next serial is that of an execution in flight exactly when a multiple of
      2^32 - 1 serials were drawn since that execution began, its own included. */
  lemma ReusedExactly(ws: seq<World>, es: seq<Event>, i: nat, k: nat, c: int)
    requires InFlight(ws, es, i, k, c) && InRange(ws[k])
    ensures Waits(ws[k], es[i].pid) && ws[k].inCall[es[i].pid] == c
    ensures NextSerial(ws[k].calls[c].serial) == ExecutionOf(ws[k], es[i].pid).serial <==>
            Age(ws, es, i, k, c) % (U32 - 1) == 0
  {
    SerialInFlight(ws, es, i, k, c);
    SerialIsNth(ws, es, c, k);
    SameNext(Draws(ws, es, c, k), Draws(ws, es, c, i));
  }

  /** Each execution in a list is that of a thread asleep in the call. */
  lemma OwnExecution(w: World, c: int, j: nat)
    requires Inv(w) && c in w.calls && j < |w.calls[c].executions|
    ensures var x := w.calls[c].executions[j];
            x.caller in w.lending.pending && Waits(w, x.caller) && w.inCall[x.caller] == c
                && ExecutionOf(w, x.caller) == x
  {
    assert CallInv(w, c);
    var xs := w.calls[c].executions;
    assert Tied(w, c, xs[j]);
    assert OfCaller(xs, xs[j].caller) == j;
  }

  lemma NotFresh(ws: seq<World>, es: seq<Event>, k: nat, c: int, j: nat) returns (i: nat)
    requires IsRun(ws, es) && k <= |es| && Inv(ws[k]) && c in ws[k].calls
    requires j < |ws[k].calls[c].executions| && ws[k].calls[c].executions[j].serial == NextSerial(ws[k].calls[c].serial)
    ensures InFlight(ws, es, i, k, c) && Age(ws, es, i, k, c) % (U32 - 1) == 0
  {
    OwnExecution(ws[k], c, j);
    i := BegunSometime(ws, es, k, ws[k].calls[c].executions[j].caller);
    ReusedExactly(ws, es, i, k, c);
  }

  lemma StillFresh(ws: seq<World>, es: seq<Event>, i: nat, k: nat, c: int)
    requires InFlight(ws, es, i, k, c) && InRange(ws[k]) && c in ws[k].calls && Fresh(ws[k].calls[c])
    ensures Age(ws, es, i, k, c) % (U32 - 1) != 0
  {
    ReusedExactly(ws, es, i, k, c);
    var xs := ws[k].calls[c].executions;
    assert xs[OfCaller(xs, es[i].pid)].serial != NextSerial(ws[k].calls[c].serial);
  }

  /** In any reachable state the next serial of a call is fresh if and only if no execution
      in flight is a multiple of 2^32 - 1 draws old. */
  lemma FreshExactly(ws: seq<World>, es: seq<Event>, k: nat, c: int)
    requires IsRun(ws, es) && k <= |es| && c in ws[k].calls
    ensures InRange(ws[k])
    ensures Fresh(ws[k].calls[c]) <==>
            forall i: nat {:trigger InFlight(ws, es, i, k, c)} :: InFlight(ws, es, i, k, c) ==>
                Age(ws, es, i, k, c) % (U32 - 1) != 0
  {
    RunKeepsInv(ws, es, k);
    if Fresh(ws[k].calls[c]) {
      forall i: nat | InFlight(ws, es, i, k, c)
        ensures Age(ws, es, i, k, c) % (U32 - 1) != 0
      {
        StillFresh(ws, es, i, k, c);
      }
    } else {
      var xs := ws[k].calls[c].executions;
      var j :| 0 <= j < |xs| && xs[j].serial == NextSerial(ws[k].calls[c].serial);
      var i := NotFresh(ws, es, k, c, j);
    }
  }

  // Runs that do not assume that serials are fresh.

  ghost predicate FreeStepAt(ws: seq<World>, es: seq<Event>, i: nat)
    requires i < |es| < |ws|
  {
    Allowed(ws[i], es[i]) && ws[i + 1] == Step(ws[i], es[i])
  }

  ghost predicate IsFreeRun(ws: seq<World>, es: seq<Event>) {
    && |ws| == |es| + 1
    && ws[0] == INIT
    && forall i :: 0 <= i < |es| ==> FreeStepAt(ws, es, i)
  }

  /** The call begun at step `i`, of call object `c`, has not ended before step `k`. */
  ghost predicate Outstanding(ws: seq<World>, es: seq<Event>, i: nat, k: nat, c: int) {
    && i < k <= |es| < |ws|
    && es[i].Execute? && es[i].callId == c && c in ws[i].calls
    && forall m :: i < m < k ==> es[m] != Wake(es[i].pid) && es[m] != SendFailed(es[i].pid)
  }

  /** Whenever a call begins, no outstanding execution of it is a multiple of 2^32 - 1 draws old. */
  ghost predicate OffBeat(ws: seq<World>, es: seq<Event>, k: nat)
    requires k < |es| < |ws|
  {
    es[k].Execute? && es[k].callId in ws[k].calls ==>
      forall i: nat {:trigger Outstanding(ws, es, i, k, es[k].callId)} ::
        Outstanding(ws, es, i, k, es[k].callId) ==> Age(ws, es, i, k, es[k].callId) % (U32 - 1) != 0
  }

  lemma {:induction false} DrawsOfPrefix(ws: seq<World>, es: seq<Event>, c: int, k: nat, n: nat)
    requires k <= n <= |es| < |ws|
    ensures Draws(ws[..n + 1], es[..n], c, k) == Draws(ws, es, c, k)
  {
    if k == 0 {
    } else {
      DrawsOfPrefix(ws, es, c, k - 1, n);
    }
  }

  lemma FlightOfPrefix(ws: seq<World>, es: seq<Event>, i: nat, k: nat, c: int)
    requires k <= |es| < |ws| && IsRun(ws[..k + 1], es[..k])
    ensures InFlight(ws[..k + 1], es[..k], i, k, c) <==> Outstanding(ws, es, i, k, c)
    ensures i < k ==> Age(ws[..k + 1], es[..k], i, k, c) == Age(ws, es, i, k, c)
  {
    if i < k {
      DrawsOfPrefix(ws, es, c, i, k);
      DrawsOfPrefix(ws, es, c, k, k);
    }
  }

  /** The run up to step `k` being one of `Rpc`, step `k` draws a fresh serial exactly if it is off beat. */
  lemma FreshHere(ws: seq<World>, es: seq<Event>, k: nat)
    requires k < |es| < |ws| && IsRun(ws[..k + 1], es[..k])
    requires es[k].Execute? && es[k].callId in ws[k].calls
    ensures InRange(ws[k]) && (Fresh(ws[k].calls[es[k].callId]) <==> OffBeat(ws, es, k))
  {
    var c := es[k].callId;
    var vs, fs := ws[..k + 1], es[..k];
    FreshExactly(vs, fs, k, c);
    forall i: nat
      ensures InFlight(vs, fs, i, k, c) <==> Outstanding(ws, es, i, k, c)
      ensures i < k ==> Age(vs, fs, i, k, c) == Age(ws, es, i, k, c)
    {
      FlightOfPrefix(ws, es, i, k, c);
    }
    if OffBeat(ws, es, k) {
      assert forall i: nat {:trigger InFlight(vs, fs, i, k, c)} :: InFlight(vs, fs, i, k, c) ==>
        Age(vs, fs, i, k, c) % (U32 - 1) != 0;
    } else {
      var i: nat :| Outstanding(ws, es, i, k, c) && Age(ws, es, i, k, c) % (U32 - 1) == 0;
      assert InFlight(vs, fs, i, k, c) && Age(vs, fs, i, k, c) % (U32 - 1) == 0;
    }
  }

  lemma {:induction false} PrefixIsRun(ws: seq<World>, es: seq<Event>, k: nat)
    requires IsFreeRun(ws, es) && k <= |es| && forall m :: 0 <= m < k ==> OffBeat(ws, es, m)
    ensures IsRun(ws[..k + 1], es[..k])
  {
    if k == 0 {
    } else {
      PrefixIsRun(ws, es, k - 1);
      assert FreeStepAt(ws, es, k - 1) && OffBeat(ws, es, k - 1);
      if es[k - 1].Execute? && es[k - 1].callId in ws[k - 1].calls {
        FreshHere(ws, es, k - 1);
      }
      RunLonger(ws, es, k);
    }
  }

  lemma RunLonger(ws: seq<World>, es: seq<Event>, k: nat)
    requires 0 < k <= |es| < |ws| && IsRun(ws[..k], es[..k - 1]) && StepAt(ws, es, k - 1)
    ensures IsRun(ws[..k + 1], es[..k])
  {
    var vs, fs, us, ds := ws[..k + 1], es[..k], ws[..k], es[..k - 1];
    forall i | 0 <= i < k
      ensures StepAt(vs, fs, i)
    {
      assert i < k - 1 ==> StepAt(us, ds, i);
    }
  }

  /** A run in which freshness is not assumed is one in which it holds throughout, if and only if
      every call begins off beat. */
  lemma RunExactly(ws: seq<World>, es: seq<Event>)
    requires IsFreeRun(ws, es)
    ensures IsRun(ws, es) <==> forall k :: 0 <= k < |es| ==> OffBeat(ws, es, k)
  {
    if forall k :: 0 <= k < |es| ==> OffBeat(ws, es, k) {
      PrefixIsRun(ws, es, |es|);
      assert ws[..|es| + 1] == ws && es[..|es|] == es;
    }
    if IsRun(ws, es) {
      forall k | 0 <= k < |es|
        ensures OffBeat(ws, es, k)
      {
        assert StepAt(ws, es, k);
        if es[k].Execute? && es[k].callId in ws[k].calls {
          RunShorter(ws, es, k);
          FreshHere(ws, es, k);
        }
      }
    }
  }

  lemma RunShorter(ws: seq<World>, es: seq<Event>, k: nat)
    requires IsRun(ws, es) && k <= |es|
    ensures IsRun(ws[..k + 1], es[..k])
  {
    var vs, fs := ws[..k + 1], es[..k];
    forall i | 0 <= i < k
      ensures StepAt(vs, fs, i)
    {
      assert StepAt(ws, es, i);
    }
  }

  /** Over any run whose calls begin off beat, the executions of a call have distinct serials, none
      of them zero; nothing else is assumed of serials. */
  lemma SerialsStayDistinct(ws: seq<World>, es: seq<Event>, i: nat, c: int)
    requires IsFreeRun(ws, es) && i <= |es| && c in ws[i].calls
    requires forall k :: 0 <= k < |es| ==> OffBeat(ws, es, k)
    ensures var xs := ws[i].calls[c].executions;
            && (forall a :: 0 <= a < |xs| ==> xs[a].serial != 0)
            && (forall a, b :: 0 <= a < b < |xs| ==> xs[a].serial != xs[b].serial)
  {
    RunExactly(ws, es);
    SerialsAreDistinct(ws, es, i, c);
  }

  lemma {:induction false} DrawsGrow(ws: seq<World>, es: seq<Event>, c: int, i: nat, k: nat)
    requires i <= k <= |es| <= |ws|
    ensures Draws(ws, es, c, i) <= Draws(ws, es, c, k)
  {
    if i == k {
    } else {
      DrawsGrow(ws, es, c, i, k - 1);
    }
  }

  /** It is enough that fewer than 2^32 - 1 serials of the call are drawn during any one execution. */
  lemma YoungIsOffBeat(ws: seq<World>, es: seq<Event>, k: nat)
    requires k < |es| < |ws|
    requires forall i: nat {:trigger Outstanding(ws, es, i, k, es[k].callId)} ::
               es[k].Execute? && Outstanding(ws, es, i, k, es[k].callId) ==> Age(ws, es, i, k, es[k].callId) < U32 - 1
    ensures OffBeat(ws, es, k)
  {
    if es[k].Execute? {
      var c := es[k].callId;
      forall i: nat | Outstanding(ws, es, i, k, c)
        ensures Age(ws, es, i, k, c) % (U32 - 1) != 0
      {
        DrawsGrow(ws, es, c, i + 1, k);
        assert Draws(ws, es, c, i + 1) == Draws(ws, es, c, i) + 1;
        assert 0 < Age(ws, es, i, k, c) < U32 - 1;
      }
    }
  }

  // A run that comes to a serial still in use.

  /** After one call that waits for its result and `m` that do not. */
  ghost function Busy(m: nat): World {
    World(L.INIT.(pending := map[1 := L.Pending(1, 1, 1, L.Sending)]),
          map[1 := CallState(1, NthSerial(m + 1), [Execution(1, 1, false, 0, false)])], 1, map[1 := 1])
  }

  lemma RunNext(ws: seq<World>, es: seq<Event>, e: Event, w: World)
    requires IsRun(ws, es) && Legal(ws[|es|], e) && w == Step(ws[|es|], e)
    ensures IsRun(ws + [w], es + [e])
  {
    forall i | 0 <= i <= |es|
      ensures StepAt(ws + [w], es + [e], i)
    {
      assert i < |es| ==> StepAt(ws, es, i);
    }
  }

  lemma FirstCall() returns (ws: seq<World>, es: seq<Event>)
    ensures IsRun(ws, es) && ws[|es|] == Busy(0)
  {
    var w := World(L.INIT, map[1 := CallState(1, 0, [])], 1, map[]);
    assert w == Step(INIT, NewCall(1));
    assert IsRun([INIT], []);
    RunNext([INIT], [], NewCall(1), w);
    assert NthSerial(1) == NextSerial(NthSerial(0)) == 1;
    assert [] + [Execution(1, 1, false, 0, false)] == [Execution(1, 1, false, 0, false)];
    assert Begun(CallState(1, 0, []), 1) == CallState(1, 1, [Execution(1, 1, false, 0, false)]);
    assert Busy(0) == Step(w, Execute(1, 1, 1));
    RunNext([INIT] + [w], [] + [NewCall(1)], Execute(1, 1, 1), Busy(0));
    ws, es := [INIT] + [w] + [Busy(0)], [] + [NewCall(1)] + [Execute(1, 1, 1)];
  }

  lemma {:induction false} BusyRun(m: nat) returns (ws: seq<World>, es: seq<Event>)
    ensures IsRun(ws, es) && ws[|es|] == Busy(m)
  {
    if m == 0 {
      ws, es := FirstCall();
    } else {
      ws, es := BusyRun(m - 1);
      assert NthSerial(m + 1) == NextSerial(NthSerial(m));
      assert Busy(m) == Step(Busy(m - 1), OneWay(1));
      RunNext(ws, es, OneWay(1), Busy(m));
      ws, es := ws + [Busy(m)], es + [OneWay(1)];
    }
  }

  /** One execution is left waiting while 2^32 - 2 calls without a result are made: the next call
      would get its serial. */
  lemma SerialInUse() returns (ws: seq<World>, es: seq<Event>)
    ensures IsRun(ws, es) && 1 in ws[|es|].calls && InRange(ws[|es|])
    ensures Allowed(ws[|es|], Execute(2, 1, 1)) && !Fresh(ws[|es|].calls[1])
  {
    ws, es := BusyRun(U32 - 2);
    NthSerialIs(U32 - 1);
    NthSerialIs(U32);
    assert NthSerial(U32) == NextSerial(NthSerial(U32 - 1));
    assert ws[|es|].calls[1].executions[0].serial == 1;
  }
}
