/** The executions of one call (call.c): drawing a serial, adding an execution, finding
    the execution a return names, and removing it again. */
module Call {
  import opened Errno
  import opened Sequences

  /** One execution. Its caller is asleep until it is executed, so the caller's thread
      names the execution as well as its address does. */
  datatype Execution = Execution(caller: int, serial: int, executed: bool, val: int, signalled: bool)

  datatype CallState = CallState(owner: int, serial: int, executions: seq<Execution>)

  const U32: int := 0x1_0000_0000

  // Serials.

  /** Increment, wrapping at 2^32 and skipping zero. */
  function NextSerial(serial: int): (next: int)
    requires 0 <= serial < U32
    ensures 0 < next < U32 && next != serial
  {
    if serial + 1 == U32 then 1 else serial + 1
  }

  /** The serial of the `n`-th execution of a call (a new call starts from zero). */
  function NthSerial(n: nat): (s: int)
    ensures 0 <= s < U32
    ensures s == 0 <==> n == 0
  {
    if n == 0 then 0 else NextSerial(NthSerial(n - 1))
  }

  lemma NextRest(a: nat)
    ensures (a + 1) % (U32 - 1) == if a % (U32 - 1) + 1 == U32 - 1 then 0 else a % (U32 - 1) + 1
  {
  }

  lemma {:induction false} NthSerialIs(n: nat)
    requires n > 0
    ensures NthSerial(n) == (n - 1) % (U32 - 1) + 1
  {
    if n <= 1 {
    } else {
      NthSerialIs(n - 1);
      NextRest(n - 2);
    }
  }

  lemma SerialsByRest(m: nat, n: nat)
    requires 0 < m && 0 < n
    ensures NthSerial(m) == NthSerial(n) <==> (m - 1) % (U32 - 1) == (n - 1) % (U32 - 1)
  {
    NthSerialIs(m);
    NthSerialIs(n);
  }

  /** Two executions of a call share a serial exactly when a multiple of 2^32 - 1
      executions lies between them. */
  lemma SerialsCollideExactly(m: nat, n: nat)
    requires 0 < m && 0 < n
    ensures NthSerial(m) == NthSerial(n) <==> (m - n) % (U32 - 1) == 0
  {
    SerialsByRest(m, n);
    SameRest(m - 1, n - 1);
  }

  lemma SameRest(a: nat, b: nat)
    ensures a % (U32 - 1) == b % (U32 - 1) <==> (a - b) % (U32 - 1) == 0
  {
    var quotient, rest := a / (U32 - 1) - b / (U32 - 1), a % (U32 - 1) - b % (U32 - 1);
    assert a - b == quotient * (U32 - 1) + rest;
    MultipleIffNoRest(quotient, rest);
  }

  lemma MultipleIffNoRest(quotient: int, rest: int)
    requires 1 - U32 < rest < U32 - 1
    ensures (quotient * (U32 - 1) + rest) % (U32 - 1) == 0 <==> rest == 0
  {
    var x := quotient * (U32 - 1) + rest;
    if x % (U32 - 1) == 0 {
      assert rest == (x / (U32 - 1) - quotient) * (U32 - 1);
    }
  }

  // The list of executions.

  /** The oldest execution that is still to be executed under this serial, or `|es|`. */
  function FirstPending(es: seq<Execution>, serial: int): (i: nat)
    ensures i <= |es|
    ensures i < |es| ==> !es[i].executed && es[i].serial == serial
    ensures forall j :: 0 <= j < i ==> es[j].executed || es[j].serial != serial
  {
    FirstWhere(es, (e: Execution) => !e.executed && e.serial == serial)
  }

  /** The execution of this caller, or `|es|`. */
  function OfCaller(es: seq<Execution>, caller: int): (i: nat)
    ensures i <= |es|
    ensures i < |es| ==> es[i].caller == caller
    ensures forall j :: 0 <= j < i ==> es[j].caller != caller
  {
    FirstWhere(es, (e: Execution) => e.caller == caller)
  }

  function Begun(c: CallState, caller: int): CallState
    requires 0 <= c.serial < U32
  {
    var serial := NextSerial(c.serial);
    c.(serial := serial, executions := c.executions + [Execution(caller, serial, false, 0, false)])
  }

  /** An execution that a signal has interrupted is removed instead. */
  function Answered(c: CallState, serial: int, val: int): CallState {
    var i := FirstPending(c.executions, serial);
    if i == |c.executions| then c
    else if c.executions[i].signalled then c.(executions := c.executions[..i] + c.executions[i + 1..])
    else c.(executions := c.executions[i := c.executions[i].(executed := true, val := val)])
  }

  function Finished(c: CallState, caller: int): CallState {
    var i := OfCaller(c.executions, caller);
    if i == |c.executions| then c
    else c.(executions := c.executions[..i] + c.executions[i + 1..])
  }

  function Interrupted(c: CallState, caller: int): CallState {
    var i := OfCaller(c.executions, caller);
    if i == |c.executions| then c
    else c.(executions := c.executions[i := c.executions[i].(signalled := true)])
  }

  /** A return that names an interrupted execution takes it out of the list, and nothing else happens:
      no value is stored, and no other execution is completed in its place. */
  lemma InterruptedIsDropped(c: CallState, caller: int, val: int)
    requires var es := c.executions;
             var i := OfCaller(es, caller);
             i < |es| && !es[i].executed && FirstPending(es, es[i].serial) == i
    ensures var es := c.executions;
            var i := OfCaller(es, caller);
            var left := Interrupted(c, caller);
            && |left.executions| == |es| && FirstPending(left.executions, es[i].serial) == i
            && left.executions[i].signalled && left.executions[i].serial == es[i].serial
            && Answered(left, es[i].serial, val) == c.(executions := es[..i] + es[i + 1..])
  {
    var es := c.executions;
    var i := OfCaller(es, caller);
    var left := Interrupted(c, caller).executions;
    assert forall j :: 0 <= j < |es| && j != i ==> left[j] == es[j];
    assert !left[i].executed && left[i].serial == es[i].serial;
    assert FirstPending(left, es[i].serial) == i;
    assert left[..i] == es[..i] && left[i + 1..] == es[i + 1..];
  }

  class FusionCall {
    const id: int
    const owner: int
    var serial: int
    var executions: seq<Execution>

    constructor (id: int, owner: int)
      ensures this.id == id && Value() == CallState(owner, 0, [])
    {
      this.id, this.owner := id, owner;
      serial, executions := 0, [];
    }

    function Value(): CallState
      reads this
    {
      CallState(owner, serial, executions)
    }

    method DrawSerial()
      requires 0 <= serial < U32
      modifies this`serial
      ensures serial == NextSerial(old(serial))
    {
      serial := (serial + 1) % U32;
      while serial == 0
        invariant serial == 0 ==> old(serial) + 1 == U32
        invariant serial != 0 ==> serial == NextSerial(old(serial))
        decreases serial == 0
      {
        serial := (serial + 1) % U32;
      }
    }

    /** The start of `fusion_call_execute` for a call that wants its result. The serial is used
        up even if there is no memory for the execution. */
    method Begin(caller: int, oom: bool) returns (status: Status)
      requires 0 <= serial < U32
      modifies this
      ensures status == if oom then Enomem else Ok
      ensures Value() == if oom then old(Value()).(serial := NextSerial(old(serial))) else Begun(old(Value()), caller)
    {
      DrawSerial();
      if oom {
        return Enomem;
      }
      executions := executions + [Execution(caller, serial, false, 0, false)];
      return Ok;
    }

    /** The caller is woken by a signal, and its call cannot be resumed: it leaves its execution behind. */
    method Interrupt(caller: int)
      requires OfCaller(executions, caller) < |executions|
      modifies this
      ensures Value() == Interrupted(old(Value()), caller)
    {
      var i := IndexOf(caller);
      executions := executions[i := executions[i].(signalled := true)];
    }

    method IndexOf(caller: int) returns (i: nat)
      requires OfCaller(executions, caller) < |executions|
      ensures i == OfCaller(executions, caller)
    {
      i := 0;
      while executions[i].caller != caller
        invariant i <= OfCaller(executions, caller)
        decreases |executions| - i
      {
        i := i + 1;
      }
    }

    /** `fusion_call_return` for API major 4 and above. On success `caller` is the
        thread to wake and to return the skirmishes to. */
    method Return(serial: int, val: int) returns (status: Status, caller: int)
      modifies this
      ensures status == (if serial == 0 then Eopnotsupp
                         else var i := FirstPending(old(executions), serial);
                              if i == |old(executions)| then Enomsg
                              else if old(executions)[i].signalled then Eidrm else Ok)
      ensures serial != 0 ==> Value() == Answered(old(Value()), serial, val)
      ensures serial == 0 ==> Value() == old(Value())
      ensures status == Ok ==> caller == old(executions)[FirstPending(old(executions), serial)].caller
    {
      caller := 0;
      if serial == 0 {
        return Eopnotsupp, caller;
      }
      for i := 0 to |executions|
        invariant executions == old(executions) && this.serial == old(this.serial)
        invariant forall j :: 0 <= j < i ==> executions[j].executed || executions[j].serial != serial
      {
        var x := executions[i];
        if x.executed || x.serial != serial {
          continue;
        }
        if x.signalled {
          executions := executions[..i] + executions[i + 1..];
          return Eidrm, caller;
        }
        executions := executions[i := x.(executed := true, val := val)];
        return Ok, x.caller;
      }
      return Enomsg, caller;
    }

    /** The end of `fusion_call_execute`, once the execution has been executed. */
    method Finish(caller: int) returns (val: int)
      requires OfCaller(executions, caller) < |executions|
      modifies this
      ensures Value() == Finished(old(Value()), caller)
      ensures val == old(executions)[OfCaller(old(executions), caller)].val
    {
      var i := IndexOf(caller);
      val := executions[i].val;
      executions := executions[..i] + executions[i + 1..];
    }
  }
}
