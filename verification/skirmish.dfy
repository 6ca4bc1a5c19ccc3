/** The recursive lock of skirmish.c with its two-slot stack of loans.

    `Lock` is the value of one skirmish. Each function on it says what one
    operation does to one skirmish, and each `...Asserts` predicate says when the
    assertions that operation reaches hold. The class `Skirmishes` performs
    the operations in place, in loops over the device's list. */
module Skirmish {
  import opened Errno

  /** The source's five transfer fields of one slot; `to == 0` means the slot is free. */
  datatype Loan = Loan(to: int, from: int, fromPid: int, count: int, serial: int)

  datatype Lock = Lock(fid: int, pid: int, count: int, first: Loan, second: Loan) {
    /** The loan that decides who may take the lock. */
    function Top(): Loan {
      if second.to != 0 then second else first
    }
  }

  const RETURNED := -1

  const FREE := Lock(0, 0, 0, Loan(0, 0, 0, 0, 0), Loan(0, 0, 0, 0, 0))

  /** `fusionee_dispatcher_pid`: the thread that last read the fusionee's messages. */
  function DispatcherPid(dispatchers: map<int, int>, fid: int): int {
    if fid in dispatchers then dispatchers[fid] else -22
  }

  /** The condition under which `fusion_skirmish_prevail` goes to sleep. */
  predicate MustWait(l: Lock, dispatchers: map<int, int>, pid: int) {
    || l.pid != 0
    || (l.second.to == 0 && l.first.to != 0 && DispatcherPid(dispatchers, l.first.to) != pid)
    || (l.second.to != 0 && DispatcherPid(dispatchers, l.second.to) != pid)
  }

  /** One attempt of `prevail`; a thread that must wait leaves the lock alone and tries again. */
  function Prevailed(l: Lock, dispatchers: map<int, int>, pid: int, fid: int): Lock {
    if l.pid == pid then l.(count := l.count + 1)
    else if MustWait(l, dispatchers, pid) then l
    else l.(fid := fid, pid := pid, count := 1)
  }

  function PrevailStatus(l: Lock, dispatchers: map<int, int>, pid: int): Status {
    if pid == l.pid || !MustWait(l, dispatchers, pid) then Ok else Eagain
  }

  function Dismissed(l: Lock, pid: int): Lock {
    if l.pid != pid then l
    else if l.count - 1 == 0 then l.(fid := 0, pid := 0, count := 0)
    else l.(count := l.count - 1)
  }

  /** Who gets a lock, and what it is then: its holder once more; or anybody if it is free and not
      lent; or, if it is free and lent, the dispatcher of the topmost borrower. */
  lemma PrevailsExactly(l: Lock, dispatchers: map<int, int>, pid: int, fid: int)
    ensures PrevailStatus(l, dispatchers, pid) == Ok <==>
            l.pid == pid || (l.pid == 0 && (l.Top().to == 0 || DispatcherPid(dispatchers, l.Top().to) == pid))
    ensures PrevailStatus(l, dispatchers, pid) in {Ok, Eagain}
    ensures Prevailed(l, dispatchers, pid, fid) ==
            if PrevailStatus(l, dispatchers, pid) != Ok then l
            else if l.pid == pid then Lock(l.fid, pid, l.count + 1, l.first, l.second)
            else Lock(fid, pid, 1, l.first, l.second)
  {
  }

  /** Dismissing undoes prevailing: a lock that was taken is as before, one recursion level down or free. */
  lemma DismissUndoes(l: Lock, dispatchers: map<int, int>, pid: int, fid: int)
    requires PrevailStatus(l, dispatchers, pid) == Ok
    requires if l.pid == pid then l.count > 0 else l.fid == 0 && l.count == 0
    ensures Dismissed(Prevailed(l, dispatchers, pid, fid), pid) == l
  {
  }

  function Lent(l: Lock, to: int, from: int, fromPid: int, serial: int): Lock {
    if l.pid != fromPid then l
    else if l.first.to == 0 then
      Lock(0, 0, 0, Loan(to, from, fromPid, l.count, serial), l.second)
    else if l.second.to == 0 then
      Lock(0, 0, 0, l.first, Loan(to, from, fromPid, l.count, serial))
    else l
  }

  predicate SlotClear(loan: Loan) {
    loan.from == 0 && loan.fromPid == 0 && loan.count == 0
  }

  predicate LendAsserts(l: Lock, fromPid: int) {
    l.pid == fromPid ==>
      && (l.first.to == 0 ==> SlotClear(l.first) && l.count > 0)
      && (l.first.to != 0 && l.second.to == 0 ==> SlotClear(l.second) && l.count > 0)
  }

  predicate ReturnMatches(loan: Loan, fromFid: int, toPid: int, serial: int) {
    loan.to == fromFid && loan.fromPid == toPid && loan.serial == serial
  }

  function Returned(l: Lock, fromFid: int, toPid: int, serial: int): Lock {
    if ReturnMatches(l.Top(), fromFid, toPid, serial) then l.(pid := RETURNED) else l
  }

  predicate ReturnAsserts(l: Lock, fromFid: int, toPid: int, serial: int) {
    ReturnMatches(l.Top(), fromFid, toPid, serial) ==>
      l.Top().from != 0 && l.Top().count > 0 && l.count == 0 && l.fid == 0 && l.pid == 0
  }

  function Cleared(loan: Loan): Loan {
    Loan(0, 0, 0, 0, loan.serial)
  }

  function Reclaimed(l: Lock, fromPid: int): Lock {
    if l.second.to == 0 && l.first.to != 0 && l.first.fromPid == fromPid then
      Lock(l.first.from, l.first.fromPid, l.first.count, Cleared(l.first), l.second)
    else if l.second.to != 0 && l.second.fromPid == fromPid then
      Lock(l.second.from, l.second.fromPid, l.second.count, l.first, Cleared(l.second))
    else l
  }

  predicate ReclaimAsserts(l: Lock, fromPid: int) {
    l.Top().to != 0 && l.Top().fromPid == fromPid ==>
      l.Top().from != 0 && l.Top().count > 0 && l.pid == RETURNED
  }

  /** The operations on all of a device's skirmishes, keyed by skirmish id. */
  function LentAll(ls: map<int, Lock>, to: int, from: int, fromPid: int, serial: int): map<int, Lock> {
    map id | id in ls :: Lent(ls[id], to, from, fromPid, serial)
  }

  function ReturnedAll(ls: map<int, Lock>, fromFid: int, toPid: int, serial: int): map<int, Lock> {
    map id | id in ls :: Returned(ls[id], fromFid, toPid, serial)
  }

  function ReclaimedAll(ls: map<int, Lock>, fromPid: int): map<int, Lock> {
    map id | id in ls :: Reclaimed(ls[id], fromPid)
  }

  /** One entry of the device's list. The record `lock` is the skirmish's state, changed in place. */
  class FusionSkirmish {
    const id: int
    var lock: Lock

    constructor (id: int)
      ensures this.id == id && lock == FREE
    {
      this.id := id;
      lock := FREE;
    }

    /** One attempt to take the lock; `Eagain` stands for going to sleep until woken. */
    method Prevail(dispatchers: map<int, int>, fid: int, pid: int) returns (status: Status)
      modifies this
      ensures lock == Prevailed(old(lock), dispatchers, pid, fid)
      ensures status == PrevailStatus(old(lock), dispatchers, pid)
    {
      if lock.pid == pid {
        lock := lock.(count := lock.count + 1);
        return Ok;
      }
      if || lock.pid != 0
         || (lock.second.to == 0 && lock.first.to != 0 && DispatcherPid(dispatchers, lock.first.to) != pid)
         || (lock.second.to != 0 && DispatcherPid(dispatchers, lock.second.to) != pid)
      {
        return Eagain;
      }
      lock := lock.(fid := fid, pid := pid, count := 1);
      return Ok;
    }

    method Dismiss(pid: int) returns (status: Status)
      modifies this
      ensures lock == Dismissed(old(lock), pid)
      ensures status == if old(lock).pid == pid then Ok else Eio
    {
      if lock.pid != pid {
        return Eio;
      }
      lock := lock.(count := lock.count - 1);
      if lock.count == 0 {
        lock := lock.(fid := 0, pid := 0);
      }
      return Ok;
    }

    /** What each loop below does to one skirmish. */
    method Lend(to: int, from: int, fromPid: int, serial: int) returns (held: bool)
      modifies this
      ensures lock == Lent(old(lock), to, from, fromPid, serial)
      ensures held <==> LendAsserts(old(lock), fromPid)
    {
      held := true;
      if lock.pid == fromPid {
        if lock.first.to == 0 {
          held := SlotClear(lock.first) && lock.count > 0;
          lock := lock.(first := Loan(to, from, fromPid, lock.count, serial));
          lock := lock.(fid := 0, pid := 0, count := 0);
        } else if lock.second.to == 0 {
          held := SlotClear(lock.second) && lock.count > 0;
          lock := lock.(second := Loan(to, from, fromPid, lock.count, serial));
          lock := lock.(fid := 0, pid := 0, count := 0);
        }
      }
    }

    method Reclaim(fromPid: int) returns (held: bool)
      modifies this
      ensures lock == Reclaimed(old(lock), fromPid)
      ensures held <==> ReclaimAsserts(old(lock), fromPid)
    {
      held := true;
      if lock.second.to == 0 && lock.first.to != 0 && lock.first.fromPid == fromPid {
        held := lock.first.from != 0 && lock.first.count > 0 && lock.pid == RETURNED;
        lock := lock.(fid := lock.first.from, pid := lock.first.fromPid, count := lock.first.count);
        lock := lock.(first := lock.first.(to := 0, from := 0, fromPid := 0, count := 0));
      } else if lock.second.to != 0 && lock.second.fromPid == fromPid {
        held := lock.second.from != 0 && lock.second.count > 0 && lock.pid == RETURNED;
        lock := lock.(fid := lock.second.from, pid := lock.second.fromPid, count := lock.second.count);
        lock := lock.(second := lock.second.(to := 0, from := 0, fromPid := 0, count := 0));
      }
    }

    method Return(fromFid: int, toPid: int, serial: int) returns (held: bool)
      modifies this
      ensures lock == Returned(old(lock), fromFid, toPid, serial)
      ensures held <==> ReturnAsserts(old(lock), fromFid, toPid, serial)
    {
      held := true;
      if lock.second.to == 0 {
        if lock.first.to == fromFid && lock.first.fromPid == toPid && lock.first.serial == serial {
          held := lock.first.from != 0 && lock.first.count > 0
                  && lock.count == 0 && lock.fid == 0 && lock.pid == 0;
          lock := lock.(pid := RETURNED);
        }
      } else if lock.second.fromPid == toPid && lock.second.to == fromFid && lock.second.serial == serial {
        held := lock.second.from != 0 && lock.second.count > 0
                && lock.count == 0 && lock.fid == 0 && lock.pid == 0;
        lock := lock.(pid := RETURNED);
      }
    }
  }

  /** The device's skirmishes, as entries.c keeps them: a list to go through and a
      table to look ids up in. */
  class Skirmishes {
    var list: seq<int>
    var table: map<int, FusionSkirmish>
    var ids: int
    var dispatchers: map<int, int>

    constructor ()
      ensures Valid() && Locks() == map[] && dispatchers == map[]
    {
      list, table, ids, dispatchers := [], map[], 0, map[];
    }

    ghost predicate Valid()
      reads this, table.Values
    {
      && (forall id :: id in table ==> id in list && id <= ids && table[id].id == id)
      && (forall i :: 0 <= i < |list| ==> list[i] in table)
      && (forall i, j :: 0 <= i < j < |list| ==> list[i] != list[j])
    }

    /** The locks of the device, keyed by id. */
    ghost function Locks(): (ls: map<int, Lock>)
      reads this, table.Values
      ensures ls.Keys == table.Keys
    {
      map id | id in table :: table[id].lock
    }

    method New(oom: bool) returns (status: Status, id: int)
      requires Valid()
      modifies this
      ensures Valid() && dispatchers == old(dispatchers)
      ensures status == if oom then Enomem else Ok
      ensures status != Ok ==> Locks() == old(Locks()) && ids == old(ids)
      ensures status == Ok ==> id == ids == old(ids) + 1 && id !in old(Locks()) && Locks() == old(Locks())[id := FREE]
    {
      if oom {
        return Enomem, 0;
      }
      ids := ids + 1;
      id := ids;
      var s := new FusionSkirmish(id);
      list := [id] + list;
      table := table[id := s];
      return Ok, id;
    }

    method Prevail(id: int, fid: int, pid: int) returns (status: Status)
      requires Valid()
      modifies table.Values
      ensures Valid()
      ensures id !in table ==> status == Einval && Locks() == old(Locks())
      ensures id in table ==>
                && Locks() == old(Locks())[id := Prevailed(old(Locks())[id], dispatchers, pid, fid)]
                && status == PrevailStatus(old(Locks())[id], dispatchers, pid)
    {
      if id !in table {
        return Einval;
      }
      assert forall k :: k in table && k != id ==> table[k].id != table[id].id;
      status := table[id].Prevail(dispatchers, fid, pid);
    }

    method Dismiss(id: int, pid: int) returns (status: Status)
      requires Valid()
      modifies table.Values
      ensures Valid()
      ensures id !in table ==> status == Einval && Locks() == old(Locks())
      ensures id in table ==>
                && Locks() == old(Locks())[id := Dismissed(old(Locks())[id], pid)]
                && status == if old(Locks())[id].pid == pid then Ok else Eio
    {
      if id !in table {
        return Einval;
      }
      assert forall k :: k in table && k != id ==> table[k].id != table[id].id;
      status := table[id].Dismiss(pid);
    }

    /** The loops of `transfer_all`, `reclaim_all` and `return_all`. `held` tells
        whether every assertion reached held. */
    method TransferAll(to: int, from: int, fromPid: int, serial: int) returns (held: bool)
      requires Valid()
      modifies table.Values
      ensures Valid() && Locks() == LentAll(old(Locks()), to, from, fromPid, serial)
      ensures held <==> forall id :: id in table ==> LendAsserts(old(table[id].lock), fromPid)
    {
      held := true;
      ghost var culprit := 0;
      for i := 0 to |list|
        invariant forall k :: 0 <= k < i ==>
                  table[list[k]].lock == Lent(old(table[list[k]].lock), to, from, fromPid, serial)
        invariant forall k :: i <= k < |list| ==> table[list[k]].lock == old(table[list[k]].lock)
        invariant held ==> forall k :: 0 <= k < i ==> LendAsserts(old(table[list[k]].lock), fromPid)
        invariant !held ==> culprit in table && !LendAsserts(old(table[culprit].lock), fromPid)
      {
        var h := table[list[i]].Lend(to, from, fromPid, serial);
        if !h {
          held, culprit := false, list[i];
        }
      }
      forall id | id in table
        ensures table[id].lock == Lent(old(table[id].lock), to, from, fromPid, serial)
        ensures held ==> LendAsserts(old(table[id].lock), fromPid)
      {
        var k :| 0 <= k < |list| && list[k] == id;
      }
    }

    method ReclaimAll(fromPid: int) returns (held: bool)
      requires Valid()
      modifies table.Values
      ensures Valid() && Locks() == ReclaimedAll(old(Locks()), fromPid)
      ensures held <==> forall id :: id in table ==> ReclaimAsserts(old(table[id].lock), fromPid)
    {
      held := true;
      ghost var culprit := 0;
      for i := 0 to |list|
        invariant forall k :: 0 <= k < i ==> table[list[k]].lock == Reclaimed(old(table[list[k]].lock), fromPid)
        invariant forall k :: i <= k < |list| ==> table[list[k]].lock == old(table[list[k]].lock)
        invariant held ==> forall k :: 0 <= k < i ==> ReclaimAsserts(old(table[list[k]].lock), fromPid)
        invariant !held ==> culprit in table && !ReclaimAsserts(old(table[culprit].lock), fromPid)
      {
        var h := table[list[i]].Reclaim(fromPid);
        if !h {
          held, culprit := false, list[i];
        }
      }
      forall id | id in table
        ensures table[id].lock == Reclaimed(old(table[id].lock), fromPid)
        ensures held ==> ReclaimAsserts(old(table[id].lock), fromPid)
      {
        var k :| 0 <= k < |list| && list[k] == id;
      }
    }

    method ReturnAll(fromFid: int, toPid: int, serial: int) returns (held: bool)
      requires Valid()
      modifies table.Values
      ensures Valid() && Locks() == ReturnedAll(old(Locks()), fromFid, toPid, serial)
      ensures held <==> forall id :: id in table ==> ReturnAsserts(old(table[id].lock), fromFid, toPid, serial)
    {
      held := true;
      ghost var culprit := 0;
      for i := 0 to |list|
        invariant forall k :: 0 <= k < i ==>
                  table[list[k]].lock == Returned(old(table[list[k]].lock), fromFid, toPid, serial)
        invariant forall k :: i <= k < |list| ==> table[list[k]].lock == old(table[list[k]].lock)
        invariant held ==> forall k :: 0 <= k < i ==> ReturnAsserts(old(table[list[k]].lock), fromFid, toPid, serial)
        invariant !held ==> culprit in table && !ReturnAsserts(old(table[culprit].lock), fromFid, toPid, serial)
      {
        var h := table[list[i]].Return(fromFid, toPid, serial);
        if !h {
          held, culprit := false, list[i];
        }
      }
      forall id | id in table
        ensures table[id].lock == Returned(old(table[id].lock), fromFid, toPid, serial)
        ensures held ==> ReturnAsserts(old(table[id].lock), fromFid, toPid, serial)
      {
        var k :| 0 <= k < |list| && list[k] == id;
      }
    }
  }
}
