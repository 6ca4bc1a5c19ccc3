/** Reference counts with inheritance (ref.c).

    A reference has a global count, one local count per fusionee, and inherits the local
    count of at most one other reference. The inherited part is kept eagerly: a change
    of a reference's local count is pushed down to all references that inherit from it,
    directly or not. References are named by their ids; id 0 stands for a null pointer. */
module Refs {
  import opened Errno
  import opened IdList
  import opened Sequences

  datatype LocalRef = LocalRef(fid: int, refs: int)

  datatype Thrown = Thrown(thrower: int, catcher: int)

  datatype Ref = Ref(
    global: int,
    local: int,
    locked: int,
    inherited: int,
    inheritors: seq<int>,
    locals: seq<LocalRef>,
    throws: seq<Thrown>)

  type Table = map<int, Ref>

  // The inheritance forest.

  /** `up` says which reference each one inherits from. */
  ghost predicate Links(refs: Table, up: map<int, int>) {
    up.Keys == refs.Keys && forall r :: r in refs ==> up[r] == refs[r].inherited
  }

  /** `depth` grows along every inheritance link, so there is no cycle. */
  ghost predicate Forest(up: map<int, int>, depth: map<int, nat>) {
    && depth.Keys == up.Keys
    && (forall r :: r in up && up[r] != 0 ==> up[r] in up && depth[up[r]] < depth[r])
  }

  /** `r` is `top` or inherits from it, directly or through others. */
  ghost predicate Below(up: map<int, int>, depth: map<int, nat>, r: int, top: int)
    requires Forest(up, depth) && r in up
    decreases depth[r]
  {
    r == top || (up[r] != 0 && Below(up, depth, up[r], top))
  }

  /** The direct inheritor of `top` on the way from `r` up to it. */
  ghost function Toward(up: map<int, int>, depth: map<int, nat>, r: int, top: int): (c: int)
    requires Forest(up, depth) && r in up && Below(up, depth, r, top) && r != top
    ensures c in up && up[c] == top && Below(up, depth, r, c)
    decreases depth[r]
  {
    if up[r] == top then r else Toward(up, depth, up[r], top)
  }

  lemma {:induction false} BelowIsDeeper(up: map<int, int>, depth: map<int, nat>, r: int, top: int)
    requires Forest(up, depth) && r in up && Below(up, depth, r, top)
    ensures top in up && depth[top] <= depth[r] && (r != top ==> depth[top] < depth[r])
    decreases depth[r]
  {
    if r == top {
    } else {
      BelowIsDeeper(up, depth, up[r], top);
    }
  }

  /** Below an inheritor `c` of `top` is what is below `top` through `c`. */
  lemma {:induction false} BelowChild(up: map<int, int>, depth: map<int, nat>, r: int, c: int, top: int)
    requires Forest(up, depth) && r in up && c in up && top in up && up[c] == top && top != 0
    ensures Below(up, depth, r, c) <==> Below(up, depth, r, top) && r != top && Toward(up, depth, r, top) == c
    decreases depth[r]
  {
    if r != c && up[r] != 0 {
      BelowChild(up, depth, up[r], c, top);
    }
    if Below(up, depth, r, c) {
      BelowIsDeeper(up, depth, r, c);
    }
  }

  // Local counts.

  function Total(ls: seq<LocalRef>): int {
    if ls == [] then 0 else ls[0].refs + Total(ls[1..])
  }

  function Find(ls: seq<LocalRef>, fid: int): (i: nat)
    ensures i <= |ls|
    ensures i < |ls| ==> ls[i].fid == fid
    ensures forall j :: 0 <= j < i ==> ls[j].fid != fid
  {
    FirstWhere(ls, (l: LocalRef) => l.fid == fid)
  }

  predicate Proper(ls: seq<LocalRef>) {
    && (forall i :: 0 <= i < |ls| ==> ls[i].refs >= 0)
    && (forall i, j :: 0 <= i < j < |ls| ==> ls[i].fid != ls[j].fid)
  }

  lemma {:induction false} TotalAppend(a: seq<LocalRef>, b: seq<LocalRef>)
    ensures Total(a + b) == Total(a) + Total(b)
  {
    if a == [] {
      assert a + b == b;
    } else {
      TotalAppend(a[1..], b);
      assert (a + b)[1..] == a[1..] + b;
    }
  }

  lemma {:induction false} TotalNonNegative(ls: seq<LocalRef>)
    requires forall i :: 0 <= i < |ls| ==> ls[i].refs >= 0
    ensures Total(ls) >= 0
  {
    if ls == [] {
    } else {
      TotalNonNegative(ls[1..]);
    }
  }

  function Without(ls: seq<LocalRef>, i: nat): seq<LocalRef>
    requires i < |ls|
  {
    ls[..i] + ls[i + 1..]
  }

  lemma TotalWithout(ls: seq<LocalRef>, i: nat)
    requires i < |ls|
    ensures Total(Without(ls, i)) == Total(ls) - ls[i].refs
    ensures Proper(ls) ==> Proper(Without(ls, i)) && Total(Without(ls, i)) >= 0
  {
    TotalLess(ls, i);
    ProperWithout(ls, i);
  }

  lemma {:induction false} TotalLess(ls: seq<LocalRef>, i: nat)
    requires i < |ls|
    ensures Total(Without(ls, i)) == Total(ls) - ls[i].refs
  {
    if i == 0 {
      assert Without(ls, 0) == ls[1..];
    } else {
      TotalLess(ls[1..], i - 1);
      WithoutFirst(ls, i);
    }
  }

  lemma WithoutFirst(ls: seq<LocalRef>, i: nat)
    requires 0 < i < |ls|
    ensures Without(ls, i)[0] == ls[0] && Without(ls, i)[1..] == Without(ls[1..], i - 1)
  {
  }

  lemma ProperWithout(ls: seq<LocalRef>, i: nat)
    requires i < |ls|
    ensures Proper(ls) ==> Proper(Without(ls, i)) && Total(Without(ls, i)) >= 0
  {
    if Proper(ls) {
      TotalNonNegative(Without(ls, i));
    }
  }

  /** `add_local`: the node found moves to the front, even when the change is refused. */
  function Added(ls: seq<LocalRef>, fid: int, add: int, oom: bool): (Status, seq<LocalRef>) {
    var i := Find(ls, fid);
    if i < |ls| then
      if ls[i].refs + add < 0 then (Eio, [ls[i]] + Without(ls, i))
      else (Ok, [LocalRef(fid, ls[i].refs + add)] + Without(ls, i))
    else if add <= 0 then (Eio, ls)
    else if oom then (Enomem, ls)
    else (Ok, [LocalRef(fid, add)] + ls)
  }

  /** A change that succeeds adds exactly `add` to the total, one that fails nothing. */
  lemma AddedTotal(ls: seq<LocalRef>, fid: int, add: int, oom: bool)
    requires Proper(ls)
    ensures var (status, ls') := Added(ls, fid, add, oom);
            && Proper(ls')
            && Total(ls') == Total(ls) + (if status == Ok then add else 0)
  {
    var i := Find(ls, fid);
    if i < |ls| {
      TotalWithout(ls, i);
    }
  }

  // The table.

  /** The change `propagate_local` makes: `diff` more for `top` and all below it. */
  ghost function Shifted(refs: Table, up: map<int, int>, depth: map<int, nat>, top: int, diff: int): Table
    requires Forest(up, depth) && up.Keys == refs.Keys
  {
    map r | r in refs ::
      if Below(up, depth, r, top) then refs[r].(local := refs[r].local + diff) else refs[r]
  }

  /** Each reference's list of inheritors is exactly what inherits from it. */
  ghost predicate ExactInheritors(up: map<int, int>, r: int, cs: seq<int>) {
    && (forall i :: 0 <= i < |cs| ==> cs[i] in up && up[cs[i]] == r)
    && (forall i, j :: 0 <= i < j < |cs| ==> cs[i] != cs[j])
    && (forall c :: c in up && up[c] == r ==> c in cs)
  }

  function InheritedLocal(refs: Table, r: int): int
    requires r in refs
  {
    if refs[r].inherited in refs then refs[refs[r].inherited].local else 0
  }

  /** The law of the module: a local count is the reference's own counts plus all its parent has. */
  ghost predicate ConservedAt(refs: Table, r: int)
    requires r in refs
  {
    && refs[r].global >= 0 && Proper(refs[r].locals)
    && refs[r].local == Total(refs[r].locals) + InheritedLocal(refs, r)
  }

  ghost predicate Conserved(refs: Table, up: map<int, int>, depth: map<int, nat>) {
    && 0 !in refs && Links(refs, up) && Forest(up, depth)
    && (forall r {:trigger ConservedAt(refs, r)} :: r in refs ==> ConservedAt(refs, r))
  }

  /** The links between references, in both directions. */
  ghost predicate Linked(refs: Table, up: map<int, int>) {
    && Links(refs, up)
    && (forall r {:trigger ExactInheritors(up, r, refs[r].inheritors)} ::
          r in refs ==> ExactInheritors(up, r, refs[r].inheritors))
  }

  ghost predicate Consistent(refs: Table, up: map<int, int>, depth: map<int, nat>) {
    Linked(refs, up) && Conserved(refs, up, depth)
  }

  /** The local count in closed form: own counts summed along the whole chain of parents. */
  ghost function ChainTotal(refs: Table, up: map<int, int>, depth: map<int, nat>, r: int): int
    requires Forest(up, depth) && up.Keys == refs.Keys && r in refs
    decreases depth[r]
  {
    Total(refs[r].locals) + (if up[r] != 0 then ChainTotal(refs, up, depth, up[r]) else 0)
  }

  lemma {:induction false} LocalIsChainTotal(refs: Table, up: map<int, int>, depth: map<int, nat>, r: int)
    requires Conserved(refs, up, depth) && r in refs
    ensures refs[r].local == ChainTotal(refs, up, depth, r) >= 0
    decreases depth[r]
  {
    assert ConservedAt(refs, r);
    TotalNonNegative(refs[r].locals);
    if up[r] == 0 {
    } else {
      LocalIsChainTotal(refs, up, depth, up[r]);
    }
  }

  /** Changing a reference's own counts by `diff` and pushing `diff` down keeps the law. */
  lemma ShiftConserves(refs: Table, up: map<int, int>, depth: map<int, nat>, id: int, ls: seq<LocalRef>, diff: int,
                       r: int)
    requires 0 !in refs && Links(refs, up) && Forest(up, depth) && id in refs && r in refs
    requires ConservedAt(refs, r)
    requires Proper(ls) && Total(ls) == Total(refs[id].locals) + diff
    ensures ConservedAt(Shifted(refs[id := refs[id].(locals := ls)], up, depth, id, diff), r)
  {
    var changed := refs[id := refs[id].(locals := ls)];
    var after := Shifted(changed, up, depth, id, diff);
    var p := up[r];
    if p != 0 {
      assert Below(up, depth, r, id) <==> r == id || Below(up, depth, p, id);
      if r == id && Below(up, depth, p, id) {
        BelowIsDeeper(up, depth, p, id);
      }
    }
  }

  /** How often `r` was notified. */
  ghost function Told(news: seq<int>, r: int): nat {
    multiset(news)[r]
  }

  /** Exactly those of the references below `top` whose counts are now zero, once each. */
  ghost predicate Announces(news: seq<int>, refs: Table, up: map<int, int>, depth: map<int, nat>, top: int)
    requires Forest(up, depth) && up.Keys == refs.Keys
  {
    forall r {:trigger Told(news, r)} ::
      Told(news, r) == if r in refs && Below(up, depth, r, top) && refs[r].local + refs[r].global == 0 then 1 else 0
  }

  /** Below `top` through one of its inheritors in `cs`. */
  ghost predicate Through(up: map<int, int>, depth: map<int, nat>, r: int, top: int, cs: seq<int>)
    requires Forest(up, depth) && r in up
  {
    Below(up, depth, r, top) && r != top && Toward(up, depth, r, top) in cs
  }

  /** `Shifted`, done for the inheritors in `cs` only. */
  ghost function PartShifted(refs: Table, up: map<int, int>, depth: map<int, nat>, top: int, cs: seq<int>,
                             diff: int): Table
    requires Forest(up, depth) && up.Keys == refs.Keys
  {
    map r | r in refs ::
      if Through(up, depth, r, top, cs) then refs[r].(local := refs[r].local + diff) else refs[r]
  }

  ghost predicate PartAnnounces(news: seq<int>, refs: Table, up: map<int, int>, depth: map<int, nat>, top: int,
                                cs: seq<int>)
    requires Forest(up, depth) && up.Keys == refs.Keys
  {
    forall r {:trigger Told(news, r)} ::
      Told(news, r) == if r in refs && Through(up, depth, r, top, cs)
          && refs[r].local + refs[r].global == 0 then 1 else 0
  }

  /** One more inheritor done. */
  lemma ThroughOneMore(up: map<int, int>, depth: map<int, nat>, r: int, top: int, cs: seq<int>, c: int)
    requires Forest(up, depth) && r in up && c in up && top in up && up[c] == top != 0 && c !in cs
    ensures Through(up, depth, r, top, cs + [c]) <==> Through(up, depth, r, top, cs) || Below(up, depth, r, c)
    ensures !(Through(up, depth, r, top, cs) && Below(up, depth, r, c))
    ensures Below(up, depth, r, c) ==> Below(up, depth, r, top)
  {
    BelowChild(up, depth, r, c, top);
  }

  lemma PartShiftedNext(before: Table, up: map<int, int>, depth: map<int, nat>, top: int, cs: seq<int>, c: int,
                        diff: int)
    requires Forest(up, depth) && up.Keys == before.Keys
    requires c in up && top in up && up[c] == top != 0 && c !in cs
    ensures Shifted(PartShifted(before, up, depth, top, cs, diff), up, depth, c, diff)
         == PartShifted(before, up, depth, top, cs + [c], diff)
  {
    forall r | r in before
      ensures Through(up, depth, r, top, cs + [c]) <==> Through(up, depth, r, top, cs) || Below(up, depth, r, c)
      ensures !(Through(up, depth, r, top, cs) && Below(up, depth, r, c))
    {
      ThroughOneMore(up, depth, r, top, cs, c);
    }
  }

  lemma PartAnnouncesNext(news: seq<int>, more: seq<int>, refs: Table, up: map<int, int>, depth: map<int, nat>,
                          top: int, cs: seq<int>, c: int, diff: int)
    requires Forest(up, depth) && up.Keys == refs.Keys
    requires c in up && top in up && up[c] == top != 0 && c !in cs
    requires PartAnnounces(news, refs, up, depth, top, cs)
    requires Announces(more, Shifted(refs, up, depth, c, diff), up, depth, c)
    ensures PartAnnounces(news + more, Shifted(refs, up, depth, c, diff), up, depth, top, cs + [c])
  {
    var after := Shifted(refs, up, depth, c, diff);
    forall r
      ensures Told(news + more, r) ==
              if r in after && Through(up, depth, r, top, cs + [c])
                  && after[r].local + after[r].global == 0 then 1 else 0
    {
      assert Told(news + more, r) == Told(news, r) + Told(more, r);
      if r in refs {
        ThroughOneMore(up, depth, r, top, cs, c);
      }
    }
  }

  /** All inheritors done, and then the reference itself. */
  ghost function Capped(part: Table, top: int, diff: int): Table
    requires top in part
  {
    part[top := part[top].(local := part[top].local + diff)]
  }

  lemma PartShiftedAll(before: Table, up: map<int, int>, depth: map<int, nat>, top: int, cs: seq<int>, diff: int)
    requires Forest(up, depth) && up.Keys == before.Keys && top in before && ExactInheritors(up, top, cs)
    ensures Capped(PartShifted(before, up, depth, top, cs, diff), top, diff) == Shifted(before, up, depth, top, diff)
  {
  }

  lemma AnnouncesAll(news: seq<int>, part: Table, up: map<int, int>, depth: map<int, nat>, top: int, cs: seq<int>,
                     diff: int)
    requires Forest(up, depth) && up.Keys == part.Keys && top in part && ExactInheritors(up, top, cs)
    requires PartAnnounces(news, part, up, depth, top, cs)
    ensures var after := Capped(part, top, diff);
            Announces(if after[top].local + after[top].global == 0 then news + [top] else news, after, up, depth, top)
  {
    var after := Capped(part, top, diff);
    var zero := after[top].local + after[top].global == 0;
    forall r
      ensures Told(if zero then news + [top] else news, r) ==
              if r in after && Below(up, depth, r, top) && after[r].local + after[r].global == 0 then 1 else 0
    {
      assert Told(news + [top], r) == Told(news, r) + Told([top], r);
      assert Told([top], r) == if r == top then 1 else 0;
      assert r in part && Below(up, depth, r, top) && r != top ==> Through(up, depth, r, top, cs);
    }
  }

  /** `diff` can be pushed down from `top`: the lists to follow are right and no count
      falls below zero. */
  ghost predicate Ready(refs: Table, up: map<int, int>, depth: map<int, nat>, top: int, diff: int)
    requires Forest(up, depth) && up.Keys == refs.Keys
  {
    forall r :: r in refs && Below(up, depth, r, top) ==>
      ExactInheritors(up, r, refs[r].inheritors) && refs[r].local + diff >= 0
  }

  lemma ReadyChild(before: Table, up: map<int, int>, depth: map<int, nat>, top: int, cs: seq<int>, diff: int, c: int)
    requires Forest(up, depth) && up.Keys == before.Keys && Ready(before, up, depth, top, diff)
    requires c in up && top in up && up[c] == top != 0 && c !in cs
    ensures Ready(PartShifted(before, up, depth, top, cs, diff), up, depth, c, diff)
  {
    forall r | r in before && Below(up, depth, r, c)
      ensures Below(up, depth, r, top) && !Through(up, depth, r, top, cs)
    {
      ThroughOneMore(up, depth, r, top, cs, c);
    }
  }

  /** No count falls below zero on the way to a table in which the law holds. */
  lemma ReadyFor(refs: Table, up: map<int, int>, depth: map<int, nat>, top: int, diff: int,
                 after: Table, up': map<int, int>, depth': map<int, nat>)
    requires Forest(up, depth) && up.Keys == refs.Keys == after.Keys
    requires forall r :: r in refs && Below(up, depth, r, top) ==>
               ExactInheritors(up, r, refs[r].inheritors) && after[r].local == refs[r].local + diff
    requires Conserved(after, up', depth')
    ensures Ready(refs, up, depth, top, diff)
  {
    forall r | r in refs && Below(up, depth, r, top)
      ensures refs[r].local + diff >= 0
    {
      LocalIsChainTotal(after, up', depth', r);
    }
  }

  // What each operation does to the table, and why it keeps it consistent.

  ghost function WithLocals(refs: Table, id: int, ls: seq<LocalRef>): Table
    requires id in refs
  {
    refs[id := refs[id].(locals := ls)]
  }

  /** Counts, links and totals as before. */
  ghost predicate Alike(a: Table, b: Table) {
    && a.Keys == b.Keys
    && forall r :: r in a ==>
         && (a[r].global >= 0 ==> b[r].global >= 0)
         && b[r].local == a[r].local && b[r].inherited == a[r].inherited && b[r].inheritors == a[r].inheritors
         && (Proper(a[r].locals) ==> Proper(b[r].locals)) && Total(b[r].locals) == Total(a[r].locals)
  }

  lemma SameLinks(a: Table, b: Table, up: map<int, int>)
    requires Linked(a, up) && a.Keys == b.Keys
    requires forall r :: r in a ==> b[r].inherited == a[r].inherited && b[r].inheritors == a[r].inheritors
    ensures Linked(b, up)
  {
    forall r | r in b
      ensures ExactInheritors(up, r, b[r].inheritors)
    {
      assert ExactInheritors(up, r, a[r].inheritors);
    }
  }

  lemma AlikeConsistent(a: Table, b: Table, up: map<int, int>, depth: map<int, nat>)
    requires Consistent(a, up, depth) && Alike(a, b)
    ensures Consistent(b, up, depth)
  {
    SameLinks(a, b, up);
    forall r | r in b
      ensures ConservedAt(b, r)
    {
      assert ConservedAt(a, r);
    }
  }

  lemma ShiftConsistent(refs: Table, up: map<int, int>, depth: map<int, nat>, id: int, ls: seq<LocalRef>, diff: int)
    requires Consistent(refs, up, depth) && id in refs
    requires Proper(ls) && Total(ls) == Total(refs[id].locals) + diff
    ensures Consistent(Shifted(WithLocals(refs, id, ls), up, depth, id, diff), up, depth)
    ensures Ready(WithLocals(refs, id, ls), up, depth, id, diff)
  {
    var changed := WithLocals(refs, id, ls);
    var after := Shifted(changed, up, depth, id, diff);
    SameLinks(refs, changed, up);
    SameLinks(changed, after, up);
    forall r | r in refs
      ensures ConservedAt(after, r)
    {
      assert ConservedAt(refs, r);
      ShiftConserves(refs, up, depth, id, ls, diff, r);
    }
    LinkedReady(changed, up, depth, id, diff, after, up, depth);
  }

  lemma LinkedReady(refs: Table, up: map<int, int>, depth: map<int, nat>, top: int, diff: int,
                    after: Table, up': map<int, int>, depth': map<int, nat>)
    requires Linked(refs, up) && Forest(up, depth) && after.Keys == refs.Keys
    requires forall r :: r in refs && Below(up, depth, r, top) ==> after[r].local == refs[r].local + diff
    requires Conserved(after, up', depth')
    ensures Ready(refs, up, depth, top, diff)
  {
    forall r | r in refs
      ensures ExactInheritors(up, r, refs[r].inheritors)
    {
    }
    ReadyFor(refs, up, depth, top, diff, after, up', depth');
  }

  /** A change of `fid`'s own count by `add`, with what it announces. */
  ghost predicate Changed(before: Table, after: Table, up: map<int, int>, depth: map<int, nat>,
                          id: int, fid: int, add: int, oom: bool, status: Status, news: seq<int>)
    requires Forest(up, depth) && up.Keys == before.Keys && id in before
  {
    var (st, ls) := Added(before[id].locals, fid, add, oom);
    && status == st
    && if st == Ok then
         after == Shifted(WithLocals(before, id, ls), up, depth, id, add) && Announces(news, after, up, depth, id)
       else
         after == WithLocals(before, id, ls) && news == []
  }

  /** Whether it succeeds or fails, a change of a local count keeps the law. */
  lemma ChangeConsistent(refs: Table, up: map<int, int>, depth: map<int, nat>, id: int, fid: int, add: int, oom: bool)
    requires Consistent(refs, up, depth) && id in refs
    ensures var (status, ls) := Added(refs[id].locals, fid, add, oom);
            var changed := WithLocals(refs, id, ls);
            if status == Ok then
              Consistent(Shifted(changed, up, depth, id, add), up, depth) && Ready(changed, up, depth, id, add)
            else
              Consistent(changed, up, depth)
  {
    var (status, ls) := Added(refs[id].locals, fid, add, oom);
    assert ConservedAt(refs, id);
    AddedTotal(refs[id].locals, fid, add, oom);
    if status == Ok {
      ShiftConsistent(refs, up, depth, id, ls, add);
    } else {
      AlikeConsistent(refs, WithLocals(refs, id, ls), up, depth);
    }
  }

  function LocalOf(ls: seq<LocalRef>, fid: int): int {
    var i := Find(ls, fid);
    if i < |ls| then ls[i].refs else 0
  }

  function ThrowsOf(ts: seq<Thrown>, fid: int): nat {
    if ts == [] then 0 else (if ts[0].thrower == fid then 1 else 0) + ThrowsOf(ts[1..], fid)
  }

  predicate Has(ls: seq<LocalRef>, fid: int) {
    exists i :: 0 <= i < |ls| && ls[i].fid == fid
  }

  /** The count of a fusionee is where it is found, wherever that is. */
  lemma LocalAt(ls: seq<LocalRef>, i: nat)
    requires Proper(ls) && i < |ls|
    ensures LocalOf(ls, ls[i].fid) == ls[i].refs
  {
    assert Find(ls, ls[i].fid) <= i;
  }

  lemma LocalWithout(ls: seq<LocalRef>, i: nat, fid: int)
    requires Proper(ls) && i < |ls|
    ensures LocalOf(Without(ls, i), fid) == if fid == ls[i].fid then 0 else LocalOf(ls, fid)
  {
    var rest, j, k := Without(ls, i), Find(ls, fid), Find(Without(ls, i), fid);
    assert forall m :: 0 <= m < |rest| ==> rest[m] == ls[if m < i then m else m + 1];
    if fid == ls[i].fid {
      assert k == |rest|;
    } else if j < |ls| {
      assert rest[if j < i then j else j - 1] == ls[j];
      ProperWithout(ls, i);
      LocalAt(rest, if j < i then j else j - 1);
    } else {
      assert k == |rest|;
    }
  }

  lemma LocalFirst(ls: seq<LocalRef>, l: LocalRef, fid: int)
    ensures LocalOf([l] + ls, fid) == if fid == l.fid then l.refs else LocalOf(ls, fid)
  {
    assert ([l] + ls)[0] == l && forall m :: 0 <= m < |ls| ==> ([l] + ls)[m + 1] == ls[m];
    var k := Find([l] + ls, fid);
    assert fid != l.fid ==> k == Find(ls, fid) + 1;
  }

  /** Changing a count changes that count only, and not even that when it is refused. */
  lemma AddedLocal(ls: seq<LocalRef>, fid: int, add: int, oom: bool, f: int)
    requires Proper(ls)
    ensures var (status, after) := Added(ls, fid, add, oom);
            LocalOf(after, f) == LocalOf(ls, f) + if status == Ok && f == fid then add else 0
  {
    var i := Find(ls, fid);
    if i < |ls| {
      LocalWithout(ls, i, f);
      LocalFirst(Without(ls, i), ls[i], f);
      LocalFirst(Without(ls, i), LocalRef(fid, ls[i].refs + add), f);
    } else {
      LocalFirst(ls, LocalRef(fid, add), f);
    }
  }

  lemma HasFirst(ls: seq<LocalRef>, l: LocalRef, f: int)
    ensures Has([l] + ls, f) <==> f == l.fid || Has(ls, f)
  {
    assert ([l] + ls)[0] == l && forall m :: 0 <= m < |ls| ==> ([l] + ls)[m + 1] == ls[m];
    if Has([l] + ls, f) {
      var i :| 0 <= i <= |ls| && ([l] + ls)[i].fid == f;
      assert i > 0 ==> ls[i - 1].fid == f;
    }
  }

  lemma HasMoved(ls: seq<LocalRef>, i: nat, l: LocalRef, f: int)
    requires i < |ls| && l.fid == ls[i].fid
    ensures Has([l] + Without(ls, i), f) <==> Has(ls, f)
  {
    var rest := Without(ls, i);
    HasFirst(rest, l, f);
    assert forall m :: 0 <= m < |rest| ==> rest[m] == ls[if m < i then m else m + 1];
    if Has(ls, f) && f != l.fid {
      var j :| 0 <= j < |ls| && ls[j].fid == f;
      assert rest[if j < i then j else j - 1].fid == f;
    }
    if Has(rest, f) {
      var j :| 0 <= j < |rest| && rest[j].fid == f;
      assert ls[if j < i then j else j + 1].fid == f;
    }
  }

  /** A change of a count succeeds if and only if the count does not fall below zero, and there is a node for it,
      or one can be made; it changes that count by exactly as much, and no other; and a node once made stays. */
  lemma AddedExactly(ls: seq<LocalRef>, fid: int, add: int, oom: bool, f: int)
    requires Proper(ls)
    ensures var (status, after) := Added(ls, fid, add, oom);
            && status == (if Has(ls, fid) then (if LocalOf(ls, fid) + add >= 0 then Ok else Eio)
                          else if add <= 0 then Eio else if oom then Enomem else Ok)
            && LocalOf(after, f) == LocalOf(ls, f) + (if status == Ok && f == fid then add else 0)
            && (Has(after, f) <==> Has(ls, f) || (status == Ok && f == fid))
  {
    AddedLocal(ls, fid, add, oom, f);
    var i := Find(ls, fid);
    if i < |ls| {
      assert Has(ls, fid);
      HasMoved(ls, i, ls[i], f);
      HasMoved(ls, i, LocalRef(fid, ls[i].refs + add), f);
    } else {
      assert !Has(ls, fid);
      HasFirst(ls, LocalRef(fid, add), f);
    }
  }

  lemma NoneWithout(ls: seq<LocalRef>, fid: int)
    requires Proper(ls)
    ensures LocalOf(ls, fid) >= 0 && (LocalOf(ls, fid) > 0 ==> Has(ls, fid))
  {
  }

  /** The count of `fid` on `id` is `add` more than before, and every other count is as it was. */
  ghost predicate Recounted(before: Table, after: Table, id: int, fid: int, add: int) {
    && after.Keys == before.Keys
    && forall r, f {:trigger LocalOf(after[r].locals, f)} :: r in before ==>
         LocalOf(after[r].locals, f) == LocalOf(before[r].locals, f) + if r == id && f == fid then add else 0
  }

  /** What a change of a count comes to. */
  lemma ChangedExactly(before: Table, after: Table, up: map<int, int>, depth: map<int, nat>,
                       id: int, fid: int, add: int, oom: bool, status: Status, news: seq<int>)
    requires Forest(up, depth) && up.Keys == before.Keys && id in before && Proper(before[id].locals)
    requires Changed(before, after, up, depth, id, fid, add, oom, status, news)
    ensures status == (if Has(before[id].locals, fid)
                         then (if LocalOf(before[id].locals, fid) + add >= 0 then Ok else Eio)
                       else if add <= 0 then Eio else if oom then Enomem else Ok)
    ensures Recounted(before, after, id, fid, if status == Ok then add else 0)
  {
    AddedExactly(before[id].locals, fid, add, oom, fid);
    forall r, f | r in before
      ensures LocalOf(after[r].locals, f) == LocalOf(before[r].locals, f)
              + if r == id && f == fid && status == Ok then add else 0
    {
      AddedExactly(before[id].locals, fid, add, oom, f);
    }
  }

  lemma UpExactly(before: Table, after: Table, up: map<int, int>, depth: map<int, nat>,
                  id: int, fid: int, oom: bool, status: Status, news: seq<int>)
    requires Forest(up, depth) && up.Keys == before.Keys && id in before && Proper(before[id].locals)
    requires Changed(before, after, up, depth, id, fid, 1, oom, status, news)
    ensures status == (if oom && !Has(before[id].locals, fid) then Enomem else Ok)
    ensures Recounted(before, after, id, fid, if status == Ok then 1 else 0)
  {
    ChangedExactly(before, after, up, depth, id, fid, 1, oom, status, news);
    NoneWithout(before[id].locals, fid);
  }

  lemma DownExactly(before: Table, after: Table, up: map<int, int>, depth: map<int, nat>,
                    id: int, fid: int, oom: bool, status: Status, news: seq<int>)
    requires Forest(up, depth) && up.Keys == before.Keys && id in before && Proper(before[id].locals)
    requires Changed(before, after, up, depth, id, fid, -1, oom, status, news)
    ensures status == (if LocalOf(before[id].locals, fid) > 0 then Ok else Eio)
    ensures Recounted(before, after, id, fid, if status == Ok then -1 else 0)
  {
    ChangedExactly(before, after, up, depth, id, fid, -1, oom, status, news);
    NoneWithout(before[id].locals, fid);
  }

  /** A reference without any local count has none of any fusionee. */
  lemma {:induction false} TotalAbove(ls: seq<LocalRef>, i: nat)
    requires Proper(ls) && i < |ls|
    ensures Total(ls) >= ls[i].refs
  {
    TotalWithout(ls, i);
  }

  lemma NoneLeft(refs: Table, up: map<int, int>, depth: map<int, nat>, id: int, fid: int)
    requires Consistent(refs, up, depth) && id in refs && refs[id].local == 0
    ensures LocalOf(refs[id].locals, fid) == 0
  {
    assert ConservedAt(refs, id);
    if refs[id].inherited in refs {
      LocalIsChainTotal(refs, up, depth, refs[id].inherited);
    }
    var i := Find(refs[id].locals, fid);
    if i < |refs[id].locals| {
      TotalAbove(refs[id].locals, i);
    }
  }

  /** The oldest throw for this catcher, or `|ts|`. */
  ghost function FirstFor(ts: seq<Thrown>, fid: int): (i: nat)
    ensures i <= |ts|
    ensures i < |ts| ==> ts[i].catcher == fid
    ensures forall j :: 0 <= j < i ==> ts[j].catcher != fid
  {
    FirstWhere(ts, (t: Thrown) => t.catcher == fid)
  }

  const NEW_REF := Ref(0, 0, 0, 0, [], [], [])

  lemma NewConsistent(refs: Table, up: map<int, int>, depth: map<int, nat>, id: int)
    requires Consistent(refs, up, depth) && id !in refs && id != 0
    ensures Consistent(refs[id := NEW_REF], up[id := 0], depth[id := 0])
  {
    forall r | r in refs
      ensures ConservedAt(refs[id := NEW_REF], r)
    {
      assert ConservedAt(refs, r);
    }
    assert ConservedAt(refs[id := NEW_REF], id);
    NewLinked(refs, up, id);
  }

  lemma NewLinked(refs: Table, up: map<int, int>, id: int)
    requires Linked(refs, up) && 0 !in refs && id !in refs && id != 0
    requires forall r :: r in up && up[r] != 0 ==> up[r] in up
    ensures Linked(refs[id := NEW_REF], up[id := 0])
  {
    forall r | r in refs
      ensures ExactInheritors(up[id := 0], r, refs[r].inheritors)
    {
      assert ExactInheritors(up, r, refs[r].inheritors);
      RootInheritors(up, r, refs[r].inheritors, id);
    }
    assert ExactInheritors(up[id := 0], id, []);
  }

  /** A root inherits from nobody. */
  lemma RootInheritors(up: map<int, int>, r: int, cs: seq<int>, id: int)
    requires ExactInheritors(up, r, cs) && r != 0 && (id in up ==> up[id] != r)
    ensures ExactInheritors(up[id := 0], r, cs)
  {
  }

  // Inheriting.

  ghost function Deepened(up: map<int, int>, depth: map<int, nat>, id: int, from: int): map<int, nat>
    requires Forest(up, depth) && from in up
  {
    map r | r in up :: if Below(up, depth, r, id) then depth[r] + depth[from] + 1 else depth[r]
  }

  lemma DeepenedForest(up: map<int, int>, depth: map<int, nat>, id: int, from: int)
    requires Forest(up, depth) && id in up && from in up && up[id] == 0 && from != 0
    requires !Below(up, depth, from, id)
    ensures Forest(up[id := from], Deepened(up, depth, id, from))
  {
    var up', depth' := up[id := from], Deepened(up, depth, id, from);
    forall r | r in up' && up'[r] != 0
      ensures up'[r] in up' && depth'[up'[r]] < depth'[r]
    {
      assert r != id ==> (Below(up, depth, r, id) <==> Below(up, depth, up[r], id));
    }
  }

  ghost function Inherited(refs: Table, up: map<int, int>, depth: map<int, nat>, id: int, from: int): Table
    requires Forest(up, depth) && up.Keys == refs.Keys && id in refs && from in refs
  {
    var linked := WithInheritor(refs, id, from);
    var pushed := Shifted(linked, up, depth, id, refs[from].local);
    pushed[id := pushed[id].(inherited := from)]
  }

  lemma InheritedConsistent(refs: Table, up: map<int, int>, depth: map<int, nat>, id: int, from: int)
    requires Consistent(refs, up, depth) && id in refs && from in refs && up[id] == 0
    requires !Below(up, depth, from, id)
    ensures Consistent(Inherited(refs, up, depth, id, from), up[id := from], Deepened(up, depth, id, from))
  {
    DeepenedForest(up, depth, id, from);
    InheritedLinked(refs, up, depth, id, from);
    forall r | r in refs
      ensures ConservedAt(Inherited(refs, up, depth, id, from), r)
    {
      InheritedConserves(refs, up, depth, id, from, r);
    }
  }

  lemma InheritedLinked(refs: Table, up: map<int, int>, depth: map<int, nat>, id: int, from: int)
    requires Linked(refs, up) && Forest(up, depth) && id in refs && from in refs && up[id] == 0 && 0 !in refs
    ensures Linked(Inherited(refs, up, depth, id, from), up[id := from])
  {
    var after := Inherited(refs, up, depth, id, from);
    forall r | r in after
      ensures ExactInheritors(up[id := from], r, after[r].inheritors)
    {
      assert ExactInheritors(up, r, refs[r].inheritors);
      if r == from {
        MoreInheritors(up, r, refs[r].inheritors, id);
      } else {
        assert after[r].inheritors == refs[r].inheritors;
      }
    }
  }

  lemma MoreInheritors(up: map<int, int>, r: int, cs: seq<int>, id: int)
    requires ExactInheritors(up, r, cs) && id in up && up[id] != r
    ensures ExactInheritors(up[id := r], r, [id] + cs)
  {
    assert forall i :: 0 < i <= |cs| ==> ([id] + cs)[i] == cs[i - 1];
    assert forall c :: c in [id] + cs <==> c == id || c in cs;
  }

  lemma InheritedConserves(refs: Table, up: map<int, int>, depth: map<int, nat>, id: int, from: int, r: int)
    requires Consistent(refs, up, depth) && id in refs && from in refs && up[id] == 0 && r in refs
    requires !Below(up, depth, from, id)
    ensures ConservedAt(Inherited(refs, up, depth, id, from), r)
  {
    assert ConservedAt(refs, r);
    if r != id && up[r] != 0 {
      assert Below(up, depth, r, id) <==> Below(up, depth, up[r], id);
    }
  }

  lemma InheritedKeys(refs: Table, up: map<int, int>, depth: map<int, nat>, bound: nat, id: int, from: int)
    requires Forest(up, depth) && up.Keys == refs.Keys && id in refs && from in refs
    requires forall r :: r in depth ==> depth[r] <= bound
    ensures Inherited(refs, up, depth, id, from).Keys == refs.Keys
    ensures forall r :: r in Deepened(up, depth, id, from) ==> Deepened(up, depth, id, from)[r] <= 2 * bound + 1
  {
  }

  ghost function WithInheritor(refs: Table, id: int, from: int): Table
    requires from in refs
  {
    refs[from := refs[from].(inheritors := [id] + refs[from].inheritors)]
  }

  lemma InheritReady(refs: Table, up: map<int, int>, depth: map<int, nat>, id: int, from: int)
    requires Consistent(refs, up, depth) && id in refs && from in refs && up[id] == 0
    requires !Below(up, depth, from, id)
    ensures Ready(WithInheritor(refs, id, from), up, depth, id, refs[from].local)
  {
    var linked := WithInheritor(refs, id, from);
    forall r | r in refs && Below(up, depth, r, id)
      ensures ExactInheritors(up, r, linked[r].inheritors)
    {
      assert ExactInheritors(up, r, refs[r].inheritors);
    }
    InheritedConsistent(refs, up, depth, id, from);
    ReadyFor(linked, up, depth, id, refs[from].local, Inherited(refs, up, depth, id, from),
             up[id := from], Deepened(up, depth, id, from));
  }

  lemma InheritedSound(refs: Table, up: map<int, int>, depth: map<int, nat>, bound: nat, ids: int, list: seq<int>,
                       id: int, from: int)
    requires Sound(refs, up, depth, bound, ids, list) && id in refs && from in refs && up[id] == 0
    requires !Below(up, depth, from, id)
    ensures Ready(WithInheritor(refs, id, from), up, depth, id, refs[from].local)
    ensures Sound(Inherited(refs, up, depth, id, from), up[id :=
            from], Deepened(up, depth, id, from), 2 * bound + 1, ids, list)
  {
    InheritReady(refs, up, depth, id, from);
    InheritedConsistent(refs, up, depth, id, from);
    InheritedKeys(refs, up, depth, bound, id, from);
  }

  lemma AnnouncesOnly(news: seq<int>, refs: Table, up: map<int, int>, depth: map<int, nat>, id: int, from: int)
    requires Forest(up, depth) && up.Keys == refs.Keys && id in refs && Announces(news, refs, up, depth, id)
    ensures Announces(news, refs[id := refs[id].(inherited := from)], up, depth, id)
  {
  }

  ghost predicate Acyclic(up: map<int, int>) {
    exists d: map<int, nat> :: Forest(up, d)
  }

  /** Inheriting from a reference that is itself below would close a cycle, and the push
      down would never end: the condition on inheriting is exact. */
  lemma AcyclicExactly(up: map<int, int>, depth: map<int, nat>, id: int, from: int)
    requires Forest(up, depth) && id in up && from in up && up[id] == 0 && from != 0
    ensures Acyclic(up[id := from]) <==> !Below(up, depth, from, id)
  {
    var up' := up[id := from];
    if Below(up, depth, from, id) && Acyclic(up') {
      var d :| Forest(up', d);
      StillBelow(up, depth, d, id, from, from);
    } else if !Below(up, depth, from, id) {
      DeepenedForest(up, depth, id, from);
    }
  }

  lemma {:induction false} StillBelow(up: map<int, int>, depth: map<int, nat>, d: map<int, nat>, id: int, from: int,
                                      r: int)
    requires Forest(up, depth) && id in up && from in up && from != 0 && r in up && Below(up, depth, r, id)
    requires Forest(up[id := from], d)
    ensures d[id] <= d[r]
    decreases depth[r]
  {
    if r == id {
    } else {
      StillBelow(up, depth, d, id, from, up[r]);
    }
  }

  /** Each is in the list of inheritors of the one before: so the recursion of `propagate_local`
      goes down. */
  ghost predicate Descends(refs: Table, path: seq<int>) {
    && (forall i :: 0 <= i < |path| ==> path[i] in refs)
    && (forall i :: 0 <= i < |path| - 1 ==> path[i + 1] in refs[path[i]].inheritors)
  }

  lemma DescendsOn(refs: Table, a: seq<int>, b: seq<int>)
    requires Descends(refs, a) && Descends(refs, b) && a != [] && b != []
    requires b[0] in refs[a[|a| - 1]].inheritors
    ensures Descends(refs, a + b)
  {
  }

  lemma {:induction false} WayDown(refs: Table, up: map<int, int>, depth: map<int, nat>, top: int, r: int)
    returns (path: seq<int>)
    requires Linked(refs, up) && Forest(up, depth) && r in refs && Below(up, depth, r, top)
    ensures path != [] && path[0] == top && path[|path| - 1] == r && Descends(refs, path)
    decreases depth[r]
  {
    if r == top {
      path := [r];
    } else {
      path := WayDown(refs, up, depth, top, up[r]);
      assert ExactInheritors(up, up[r], refs[up[r]].inheritors);
      DescendsOn(refs, path, [r]);
      path := path + [r];
    }
  }

  /** If the parent is below the reference, the push after linking them goes down without end:
      whatever the depth `n`, it goes deeper. */
  lemma {:induction false} PushNeverEnds(refs: Table, up: map<int, int>, depth: map<int, nat>, id: int, from: int,
                                         n: nat)
    returns (path: seq<int>)
    requires Linked(refs, up) && Forest(up, depth) && id in refs && from in refs && Below(up, depth, from, id)
    ensures |path| > n && path[0] == id == path[|path| - 1] && Descends(WithInheritor(refs, id, from), path)
  {
    var linked := WithInheritor(refs, id, from);
    if n == 0 {
      path := [id];
    } else {
      var above := PushNeverEnds(refs, up, depth, id, from, n - 1);
      var round := WayDown(refs, up, depth, id, from);
      assert Descends(linked, round);
      DescendsOn(linked, round, [id]);
      path := above + (round + [id])[1..];
      assert above[|above| - 1] == round[0];
    }
  }

  // Going away: every inheritor loses what it inherited and becomes a root.

  /** Consistent, but for the list of inheritors of the reference being destroyed. */
  ghost predicate Loose(refs: Table, up: map<int, int>, depth: map<int, nat>, gone: int) {
    && gone in refs && Conserved(refs, up, depth)
    && (forall r {:trigger ExactInheritors(up, r, refs[r].inheritors)} ::
          r in refs && r != gone ==> ExactInheritors(up, r, refs[r].inheritors))
  }

  ghost function Dropped(refs: Table, up: map<int, int>, depth: map<int, nat>, c: int, local: int): Table
    requires Forest(up, depth) && up.Keys == refs.Keys && c in refs
  {
    var pushed := Shifted(refs, up, depth, c, -local);
    pushed[c := pushed[c].(inherited := 0)]
  }

  lemma DroppedConserves(refs: Table, up: map<int, int>, depth: map<int, nat>, c: int, r: int)
    requires 0 !in refs && Links(refs, up) && Forest(up, depth) && c in refs && up[c] != 0 && r in refs
    requires ConservedAt(refs, r)
    ensures ConservedAt(Dropped(refs, up, depth, c, refs[up[c]].local), r)
  {
    if up[r] != 0 {
      assert r != c ==> (Below(up, depth, r, c) <==> Below(up, depth, up[r], c));
      if Below(up, depth, up[c], c) {
        BelowIsDeeper(up, depth, up[c], c);
      }
    }
  }

  lemma DroppedConserved(refs: Table, up: map<int, int>, depth: map<int, nat>, c: int)
    requires Conserved(refs, up, depth) && c in refs && up[c] != 0
    ensures Conserved(Dropped(refs, up, depth, c, refs[up[c]].local), up[c := 0], depth)
  {
    var after := Dropped(refs, up, depth, c, refs[up[c]].local);
    forall r | r in after
      ensures ConservedAt(after, r)
    {
      assert ConservedAt(refs, r);
      DroppedConserves(refs, up, depth, c, r);
    }
  }

  lemma DroppedLinks(refs: Table, up: map<int, int>, depth: map<int, nat>, c: int, gone: int, local: int, r: int)
    requires Loose(refs, up, depth, gone) && c in refs && up[c] == gone && r in refs && r != gone
    ensures ExactInheritors(up[c := 0], r, Dropped(refs, up, depth, c, local)[r].inheritors)
  {
    assert ExactInheritors(up, r, refs[r].inheritors);
    RootInheritors(up, r, refs[r].inheritors, c);
  }

  lemma DroppedLoose(refs: Table, up: map<int, int>, depth: map<int, nat>, c: int, gone: int)
    requires Loose(refs, up, depth, gone) && c in refs && up[c] == gone
    ensures Loose(Dropped(refs, up, depth, c, refs[gone].local), up[c := 0], depth, gone)
    ensures Dropped(refs, up, depth, c, refs[gone].local)[gone] == refs[gone]
  {
    var after := Dropped(refs, up, depth, c, refs[gone].local);
    GoneIsAbove(refs, up, depth, c, gone);
    DroppedConserved(refs, up, depth, c);
    forall r | r in after && r != gone
      ensures ExactInheritors(up[c := 0], r, after[r].inheritors)
    {
      DroppedLinks(refs, up, depth, c, gone, refs[gone].local, r);
    }
  }

  lemma GoneIsAbove(refs: Table, up: map<int, int>, depth: map<int, nat>, c: int, gone: int)
    requires Loose(refs, up, depth, gone) && c in refs && up[c] == gone
    ensures !Below(up, depth, gone, c) && Ready(refs, up, depth, c, -refs[gone].local)
  {
    if Below(up, depth, gone, c) {
      BelowIsDeeper(up, depth, gone, c);
    }
    forall r | r in refs && Below(up, depth, r, c)
      ensures ExactInheritors(up, r, refs[r].inheritors)
    {
    }
    DroppedConserved(refs, up, depth, c);
    ReadyFor(refs, up, depth, c, -refs[gone].local, Dropped(refs, up, depth, c, refs[gone].local), up[c := 0], depth);
  }

  /** The links once the inheritors in `cs` are roots. */
  ghost function Cut(up: map<int, int>, cs: seq<int>): map<int, int> {
    map r | r in up :: if r in cs then 0 else up[r]
  }

  /** The table once the inheritors in `cs` of `gone` have lost what they inherited. */
  ghost function PartDropped(refs: Table, up: map<int, int>, depth: map<int, nat>, gone: int, cs: seq<int>): Table
    requires Forest(up, depth) && up.Keys == refs.Keys && gone in refs
  {
    var pushed := PartShifted(refs, up, depth, gone, cs, -refs[gone].local);
    map r | r in refs :: if r in cs then pushed[r].(inherited := 0) else pushed[r]
  }

  /** Some inheritors `cs` of `gone` are cut, and `c` is the next one. */
  ghost predicate NextCut(up: map<int, int>, depth: map<int, nat>, gone: int, cs: seq<int>, c: int) {
    && Forest(Cut(up, cs), depth)
    && c in up && up[c] == gone && gone in up && gone != 0
    && (forall x :: x in cs ==> x in up && up[x] == gone)
    && c !in cs
  }

  /** Cutting other inheritors does not change what is below `c`. */
  lemma {:induction false} CutBelow(up: map<int, int>, depth: map<int, nat>, gone: int, cs: seq<int>, c: int, r: int)
    requires Forest(up, depth) && r in up && NextCut(up, depth, gone, cs, c)
    ensures Below(Cut(up, cs), depth, r, c) <==> Below(up, depth, r, c)
    decreases depth[r]
  {
    if r != c && up[r] != 0 {
      if r in cs {
        if Below(up, depth, gone, c) {
          BelowIsDeeper(up, depth, gone, c);
        }
      } else {
        CutBelow(up, depth, gone, cs, c, up[r]);
      }
    }
  }

  lemma CutAnnounces(news: seq<int>, refs: Table, up: map<int, int>, depth: map<int, nat>, gone: int, cs: seq<int>,
                     c: int)
    requires Forest(up, depth) && up.Keys == refs.Keys && NextCut(up, depth, gone, cs, c)
    requires Announces(news, refs, Cut(up, cs), depth, c)
    ensures Announces(news, refs, up, depth, c)
  {
    forall r | r in up
      ensures Below(Cut(up, cs), depth, r, c) <==> Below(up, depth, r, c)
    {
      CutBelow(up, depth, gone, cs, c, r);
    }
  }

  lemma CutNext(up: map<int, int>, cs: seq<int>, c: int)
    requires c in up
    ensures Cut(up, cs)[c := 0] == Cut(up, cs + [c])
  {
    assert forall x :: x in cs + [c] <==> x in cs || x == c;
  }

  lemma PartDroppedNext(refs: Table, up: map<int, int>, depth: map<int, nat>, gone: int, cs: seq<int>, c: int)
    requires Forest(up, depth) && up.Keys == refs.Keys && NextCut(up, depth, gone, cs, c)
    ensures Dropped(PartDropped(refs, up, depth, gone, cs), Cut(up, cs), depth, c, refs[gone].local)
         == PartDropped(refs, up, depth, gone, cs + [c])
  {
    var now := Dropped(PartDropped(refs, up, depth, gone, cs), Cut(up, cs), depth, c, refs[gone].local);
    var next := PartDropped(refs, up, depth, gone, cs + [c]);
    forall r | r in refs
      ensures now[r] == next[r]
    {
      PartDroppedNextAt(refs, up, depth, gone, cs, c, r);
    }
    assert now.Keys == next.Keys;
  }

  lemma PartDroppedNextAt(refs: Table, up: map<int, int>, depth: map<int, nat>, gone: int, cs: seq<int>, c: int, r: int)
    requires Forest(up, depth) && up.Keys == refs.Keys && NextCut(up, depth, gone, cs, c) && r in refs
    ensures Dropped(PartDropped(refs, up, depth, gone, cs), Cut(up, cs), depth, c, refs[gone].local)[r]
         == PartDropped(refs, up, depth, gone, cs + [c])[r]
  {
    CutBelow(up, depth, gone, cs, c, r);
    ThroughOneMore(up, depth, r, gone, cs, c);
    assert r in cs + [c] <==> r in cs || r == c;
  }

  /** The state of `drop_inheritors` once the inheritors in `cs` are done. */
  ghost predicate Dropping(before: Table, links: map<int, int>, depth: map<int, nat>, gone: int, cs: seq<int>,
                           refs: Table, up: map<int, int>, news: seq<int>)
    requires Forest(links, depth) && links.Keys == before.Keys && gone in before
  {
    && refs == PartDropped(before, links, depth, gone, cs) && up == Cut(links, cs)
    && Loose(refs, up, depth, gone) && refs[gone] == before[gone]
    && PartAnnounces(news, refs, links, depth, gone, cs)
  }

  lemma SomeInheritors(up: map<int, int>, gone: int, cs: seq<int>, k: nat)
    requires ExactInheritors(up, gone, cs) && k < |cs|
    ensures forall x :: x in cs[..k] ==> x in up && up[x] == gone
    ensures cs[k] in up && up[cs[k]] == gone && cs[k] !in cs[..k]
  {
  }

  lemma DropStart(refs: Table, up: map<int, int>, depth: map<int, nat>, gone: int)
    requires Consistent(refs, up, depth) && gone in refs
    ensures Dropping(refs, up, depth, gone, [], refs, up, [])
    ensures ExactInheritors(up, gone, refs[gone].inheritors)
  {
    LooseStart(refs, up, depth, gone);
    assert PartShifted(refs, up, depth, gone, [], -refs[gone].local) == refs;
    assert PartDropped(refs, up, depth, gone, []) == refs;
    assert Cut(up, []) == up;
  }

  lemma LooseStart(refs: Table, up: map<int, int>, depth: map<int, nat>, gone: int)
    requires Consistent(refs, up, depth) && gone in refs
    ensures Loose(refs, up, depth, gone)
    ensures ExactInheritors(up, gone, refs[gone].inheritors)
  {
    forall r | r in refs
      ensures ExactInheritors(up, r, refs[r].inheritors)
    {
    }
  }

  lemma DropTurn(before: Table, links: map<int, int>, depth: map<int, nat>, gone: int, cs: seq<int>, c: int,
                 refs: Table, up: map<int, int>, news: seq<int>)
    requires Forest(links, depth) && links.Keys == before.Keys && gone in before
    requires Dropping(before, links, depth, gone, cs, refs, up, news)
    requires c in links && links[c] == gone && c !in cs && gone != 0
    requires forall x :: x in cs ==> x in links && links[x] == gone
    ensures Loose(refs, up, depth, gone) && c in refs && up[c] == gone
    ensures NextCut(links, depth, gone, cs, c)
  {
  }

  lemma DropStep(before: Table, links: map<int, int>, depth: map<int, nat>, gone: int, cs: seq<int>, c: int,
                 refs: Table, up: map<int, int>, news: seq<int>, more: seq<int>)
    requires Forest(links, depth) && links.Keys == before.Keys && gone in before
    requires Dropping(before, links, depth, gone, cs, refs, up, news) && NextCut(links, depth, gone, cs, c)
    requires Loose(refs, up, depth, gone) && c in refs
    requires Announces(more, Dropped(refs, up, depth, c, refs[gone].local), up, depth, c)
    ensures Dropping(before, links, depth, gone, cs + [c],
                     Dropped(refs, up, depth, c, refs[gone].local), up[c := 0], news + more)
  {
    DropAnnounces(news, more, refs, up, links, depth, gone, cs, c, refs[gone].local);
    CutNext(links, cs, c);
    PartDroppedNext(before, links, depth, gone, cs, c);
    DroppedLoose(refs, up, depth, c, gone);
  }

  lemma DropAnnounces(news: seq<int>, more: seq<int>, refs: Table, up: map<int, int>, links: map<int, int>,
                      depth: map<int, nat>,
                      gone: int, cs: seq<int>, c: int, local: int)
    requires Forest(links, depth) && links.Keys == refs.Keys && NextCut(links, depth, gone, cs, c)
    requires up == Cut(links, cs)
    requires PartAnnounces(news, refs, links, depth, gone, cs)
    requires Announces(more, Dropped(refs, up, depth, c, local), up, depth, c)
    ensures PartAnnounces(news + more, Dropped(refs, up, depth, c, local), links, depth, gone, cs + [c])
  {
    var after := Dropped(refs, up, depth, c, local);
    CutCounts(refs, links, depth, gone, cs, c, local);
    CutAnnounces(more, after, links, depth, gone, cs, c);
    AnnouncesNext(news, more, refs, after, links, depth, gone, cs, c, -local);
  }

  /** What one more inheritor announces is what is below `top` through it. */
  lemma AnnouncesNext(news: seq<int>, more: seq<int>, refs: Table, after: Table, up: map<int, int>, depth: map<int,
                      nat>,
                      top: int, cs: seq<int>, c: int, diff: int)
    requires Forest(up, depth) && up.Keys == refs.Keys
    requires NextCut(up, depth, top, cs, c)
    requires SameCounts(after, Shifted(refs, up, depth, c, diff))
    requires PartAnnounces(news, refs, up, depth, top, cs)
    requires Announces(more, after, up, depth, c)
    ensures PartAnnounces(news + more, after, up, depth, top, cs + [c])
  {
    AnnouncesSame(more, after, Shifted(refs, up, depth, c, diff), up, depth, c);
    PartAnnouncesNext(news, more, refs, up, depth, top, cs, c, diff);
    PartAnnouncesSame(news + more, Shifted(refs, up, depth, c, diff), after, up, depth, top, cs + [c]);
  }

  ghost predicate SameCounts(a: Table, b: Table) {
    a.Keys == b.Keys && forall r :: r in a ==> a[r].local == b[r].local && a[r].global == b[r].global
  }

  lemma CutCounts(refs: Table, up: map<int, int>, depth: map<int, nat>, gone: int, cs: seq<int>, c: int, local: int)
    requires Forest(up, depth) && up.Keys == refs.Keys && NextCut(up, depth, gone, cs, c)
    ensures SameCounts(Dropped(refs, Cut(up, cs), depth, c, local), Shifted(refs, up, depth, c, -local))
  {
    forall r | r in up
      ensures Below(Cut(up, cs), depth, r, c) <==> Below(up, depth, r, c)
    {
      CutBelow(up, depth, gone, cs, c, r);
    }
  }

  lemma AnnouncesSame(news: seq<int>, a: Table, b: Table, up: map<int, int>, depth: map<int, nat>, top: int)
    requires Forest(up, depth) && up.Keys == a.Keys && SameCounts(a, b) && Announces(news, a, up, depth, top)
    ensures Announces(news, b, up, depth, top)
  {
  }

  lemma PartAnnouncesSame(news: seq<int>, a: Table, b: Table, up: map<int, int>, depth: map<int, nat>, top: int,
                          cs: seq<int>)
    requires Forest(up, depth) && up.Keys == a.Keys && SameCounts(b, a) && PartAnnounces(news, a, up, depth, top, cs)
    ensures PartAnnounces(news, b, up, depth, top, cs)
  {
  }

  /** `remove_inheritor` on the parent, if any, and then the entry is gone. */
  ghost function Removed(refs: Table, id: int): Table
    requires id in refs
  {
    var p := refs[id].inherited;
    (if p in refs then refs[p := refs[p].(inheritors := Remove(refs[p].inheritors, id))] else refs) - {id}
  }

  lemma RemovedConsistent(refs: Table, up: map<int, int>, depth: map<int, nat>, id: int)
    requires Loose(refs, up, depth, id)
    requires forall r :: r in refs ==> up[r] != id
    ensures Consistent(Removed(refs, id), up - {id}, depth - {id})
  {
    var after := Removed(refs, id);
    forall r | r in after
      ensures ConservedAt(after, r)
    {
      assert ConservedAt(refs, r);
    }
    forall r | r in after
      ensures ExactInheritors(up - {id}, r, after[r].inheritors)
    {
      assert ExactInheritors(up, r, refs[r].inheritors);
      FewerInheritors(up, r, refs[r].inheritors, id);
    }
  }

  lemma FewerInheritors(up: map<int, int>, r: int, cs: seq<int>, id: int)
    requires ExactInheritors(up, r, cs) && id in up
    ensures ExactInheritors(up - {id}, r, Remove(cs, id))
  {
    var inheriting := set c | c in up && up[c] == r;
    assert Lists(cs, inheriting);
    ListsRemove(cs, inheriting, id);
    ListsAll(Remove(cs, id), inheriting - {id});
  }

  /** The whole state: `depth` is bounded by `bound`, every id was handed out, and the
      list names each reference once. */
  ghost predicate Sound(refs: Table, up: map<int, int>, depth: map<int, nat>, bound: nat, ids: int, list: seq<int>) {
    && Consistent(refs, up, depth)
    && (forall r :: r in depth ==> depth[r] <= bound)
    && ids >= 0 && (forall r :: r in refs ==> 0 < r <= ids)
    && Lists(list, refs.Keys)
  }

  lemma NewSound(refs: Table, up: map<int, int>, depth: map<int, nat>, bound: nat, ids: int, list: seq<int>)
    requires Sound(refs, up, depth, bound, ids, list)
    ensures ids + 1 !in refs
    ensures Sound(refs[ids + 1 := NEW_REF], up[ids + 1 := 0], depth[ids + 1 := 0], bound, ids + 1, [ids + 1] + list)
  {
    NewConsistent(refs, up, depth, ids + 1);
    ListsPrepend(list, refs.Keys, ids + 1);
    assert refs[ids + 1 := NEW_REF].Keys == refs.Keys + {ids + 1};
  }

  ghost function Destroyed(refs: Table, up: map<int, int>, depth: map<int, nat>, id: int): Table
    requires Forest(up, depth) && up.Keys == refs.Keys && id in refs
  {
    Removed(PartDropped(refs, up, depth, id, refs[id].inheritors), id)
  }

  /** What destroying a reference means for each of the others. */
  lemma DestroyedAt(refs: Table, up: map<int, int>, depth: map<int, nat>, id: int, r: int)
    requires Consistent(refs, up, depth) && id in refs && r in refs && r != id
    ensures r in Destroyed(refs, up, depth, id)
    ensures var was, now := refs[r], Destroyed(refs, up, depth, id)[r];
            && now.local == was.local - (if Below(up, depth, r, id) then refs[id].local else 0)
            && now.inherited == (if was.inherited == id then 0 else was.inherited)
            && now.inheritors == (if refs[id].inherited == r then Remove(was.inheritors, id) else was.inheritors)
            && now.global == was.global && now.locals == was.locals
            && now.locked == was.locked && now.throws == was.throws
  {
    assert ExactInheritors(up, id, refs[id].inheritors);
    assert Below(up, depth, r, id) <==> Through(up, depth, r, id, refs[id].inheritors);
  }

  lemma DestroyedSound(before: Table, links: map<int, int>, depth: map<int, nat>, bound: nat, ids: int,
                       list: seq<int>, id: int,
                       refs: Table, up: map<int, int>, news: seq<int>)
    requires Sound(before, links, depth, bound, ids, list) && id in before
    requires Dropping(before, links, depth, id, before[id].inheritors, refs, up, news)
    ensures Sound(Removed(refs, id), up - {id}, depth - {id}, bound, ids, Remove(list, id))
    ensures 0 !in refs && id in refs && (refs[id].inherited != 0 ==> refs[id].inherited in refs)
    ensures Removed(refs, id) == Destroyed(before, links, depth, id)
    ensures PartAnnounces(news, PartDropped(before, links, depth, id, before[id].inheritors), links, depth, id,
            before[id].inheritors)
  {
    assert ExactInheritors(links, id, before[id].inheritors);
    RemovedConsistent(refs, up, depth, id);
    ListsRemove(list, before.Keys, id);
    assert Removed(refs, id).Keys == before.Keys - {id};
  }

  // A fusionee leaves.

  /** The local counts without those of `fid`. */
  function Forgotten(ls: seq<LocalRef>, fid: int): seq<LocalRef> {
    var i := Find(ls, fid);
    if i < |ls| then Without(ls, i) else ls
  }

  ghost function Unlocked(refs: Table, id: int, fid: int): (after: Table)
    requires id in refs
    ensures after.Keys == refs.Keys && after[id].locals == refs[id].locals
  {
    if refs[id].locked == fid then refs[id := refs[id].(locked := 0)] else refs
  }

  /** The table without the counts of `fid` on `id`. */
  ghost function WithoutCount(refs: Table, up: map<int, int>, depth: map<int, nat>, id: int, fid: int): Table
    requires Forest(up, depth) && up.Keys == refs.Keys && id in refs
  {
    Shifted(WithLocals(refs, id, Forgotten(refs[id].locals, fid)), up, depth, id, -LocalOf(refs[id].locals, fid))
  }

  /** The table without the lock and the counts of `fid` on `id`. */
  ghost function Cleared(refs: Table, up: map<int, int>, depth: map<int, nat>, id: int, fid: int): Table
    requires Forest(up, depth) && up.Keys == refs.Keys && id in refs
  {
    WithoutCount(Unlocked(refs, id, fid), up, depth, id, fid)
  }

  /** Exactly those whose local count has changed and whose counts are now zero, once each. */
  ghost predicate Emptied(news: seq<int>, before: Table, refs: Table) {
    forall r {:trigger Told(news, r)} ::
      Told(news, r) == if r in before && r in refs && refs[r].local != before[r].local
          && refs[r].local + refs[r].global == 0
                       then 1 else 0
  }

  ghost predicate Fewer(before: Table, refs: Table) {
    before.Keys == refs.Keys && forall r :: r in refs ==>
        refs[r].local <= before[r].local && refs[r].global == before[r].global
  }

  lemma ClearedCounts(refs: Table, up: map<int, int>, depth: map<int, nat>, id: int, fid: int)
    requires Consistent(refs, up, depth) && id in refs
    ensures LocalOf(refs[id].locals, fid) >= 0
    ensures forall r :: r in refs ==>
              && Cleared(refs, up, depth, id, fid)[r].global == refs[r].global
              && Cleared(refs, up, depth, id, fid)[r].local
              == refs[r].local - if Below(up, depth, r, id) then LocalOf(refs[id].locals, fid) else 0
  {
    assert ConservedAt(refs, id);
  }

  lemma ClearedFewer(refs: Table, up: map<int, int>, depth: map<int, nat>, id: int, fid: int)
    requires Consistent(refs, up, depth) && id in refs
    ensures Fewer(refs, Cleared(refs, up, depth, id, fid))
  {
    ClearedCounts(refs, up, depth, id, fid);
  }

  lemma ClearedRest(refs: Table, up: map<int, int>, depth: map<int, nat>, id: int, fid: int)
    requires Forest(up, depth) && up.Keys == refs.Keys && id in refs
    ensures ClearedAs(refs[id], Cleared(refs, up, depth, id, fid)[id], fid)
    ensures forall r :: r in refs && r != id ==> SameButLocal(refs[r], Cleared(refs, up, depth, id, fid)[r])
  {
  }

  /** What is announced when counts are taken away, step by step. */
  lemma EmptiedNext(before: Table, mid: Table, refs: Table, up: map<int, int>, depth: map<int, nat>,
                    id: int, n: int, news: seq<int>, more: seq<int>)
    requires Forest(up, depth) && up.Keys == mid.Keys && id in mid
    requires Emptied(news, before, mid) && Fewer(before, mid) && Fewer(mid, refs)
    requires n > 0 && Announces(more, refs, up, depth, id)
    requires forall r :: r in mid ==> refs[r].local == mid[r].local - if Below(up, depth, r, id) then n else 0
    requires forall r :: r in refs ==> refs[r].local >= 0 && refs[r].global >= 0
    ensures Emptied(news + more, before, refs)
  {
    forall r
      ensures Told(news + more, r) ==
              if r in before && r in refs && refs[r].local != before[r].local && refs[r].local + refs[r].global == 0
              then 1 else 0
    {
      assert Told(news + more, r) == Told(news, r) + Told(more, r);
    }
  }

  lemma EmptiedSame(before: Table, mid: Table, refs: Table, news: seq<int>)
    requires Emptied(news, before, mid) && mid.Keys == refs.Keys
    requires forall r :: r in mid ==> refs[r].local == mid[r].local && refs[r].global == mid[r].global
    ensures Emptied(news, before, refs)
  {
  }

  lemma NonNegative(refs: Table, up: map<int, int>, depth: map<int, nat>)
    requires Consistent(refs, up, depth)
    ensures forall r :: r in refs ==> refs[r].local >= 0 && refs[r].global >= 0
  {
    forall r | r in refs
      ensures refs[r].local >= 0 && refs[r].global >= 0
    {
      LocalIsChainTotal(refs, up, depth, r);
      assert ConservedAt(refs, r);
    }
  }

  /** One reference cleared, in the log of all that are. */
  lemma ClearedEmpties(before: Table, mid: Table, up: map<int, int>, depth: map<int, nat>, id: int, fid: int,
                       news: seq<int>, more: seq<int>)
    requires Consistent(mid, up, depth) && id in mid && Emptied(news, before, mid) && Fewer(before, mid)
    requires Consistent(Cleared(mid, up, depth, id, fid), up, depth)
    requires if LocalOf(mid[id].locals, fid) == 0 then more == []
             else Announces(more, Cleared(mid, up, depth, id, fid), up, depth, id)
    ensures Emptied(news + more, before, Cleared(mid, up, depth, id, fid))
            && Fewer(before, Cleared(mid, up, depth, id, fid))
  {
    var n := LocalOf(mid[id].locals, fid);
    ClearedFewer(mid, up, depth, id, fid);
    ClearedCounts(mid, up, depth, id, fid);
    if n == 0 {
      assert news + more == news;
      EmptiedSame(before, mid, Cleared(mid, up, depth, id, fid), news);
    } else {
      NonNegative(Cleared(mid, up, depth, id, fid), up, depth);
      EmptiedNext(before, mid, Cleared(mid, up, depth, id, fid), up, depth, id, n, news, more);
    }
  }

  /** Everything `clear_local` decides for a reference; its local count follows by the law. */
  ghost predicate ClearedAs(was: Ref, now: Ref, fid: int) {
    && now.locals == Forgotten(was.locals, fid)
    && now.locked == (if was.locked == fid then 0 else was.locked)
    && now.global == was.global && now.throws == was.throws
    && now.inherited == was.inherited && now.inheritors == was.inheritors
  }

  ghost predicate SameButLocal(was: Ref, now: Ref) {
    now == was.(local := now.local)
  }

  /** The first `k` references of the list are cleared. */
  ghost predicate ClearedUpTo(before: Table, refs: Table, list: seq<int>, fid: int, k: nat)
    requires k <= |list|
  {
    && refs.Keys == before.Keys
    && (forall i :: 0 <= i < k && list[i] in refs ==> ClearedAs(before[list[i]], refs[list[i]], fid))
    && (forall i :: k <= i < |list| && list[i] in refs ==> SameButLocal(before[list[i]], refs[list[i]]))
  }

  lemma UnlockedConsistent(refs: Table, up: map<int, int>, depth: map<int, nat>, id: int, fid: int)
    requires Consistent(refs, up, depth) && id in refs
    ensures var unlocked := if refs[id].locked == fid then refs[id := refs[id].(locked := 0)] else refs;
            Consistent(unlocked, up, depth)
  {
    AlikeConsistent(refs, refs[id := refs[id].(locked := 0)], up, depth);
  }

  /** Taking the count of one fusionee out, and pushing that down. */
  lemma ForgetConsistent(refs: Table, up: map<int, int>, depth: map<int, nat>, id: int, i: nat)
    requires Consistent(refs, up, depth) && id in refs && i < |refs[id].locals|
    ensures var ls, diff := Without(refs[id].locals, i), -refs[id].locals[i].refs;
            && Consistent(Shifted(WithLocals(refs, id, ls), up, depth, id, diff), up, depth)
            && Ready(WithLocals(refs, id, ls), up, depth, id, diff)
  {
    assert ConservedAt(refs, id);
    TotalWithout(refs[id].locals, i);
    ShiftConsistent(refs, up, depth, id, Without(refs[id].locals, i), -refs[id].locals[i].refs);
  }

  lemma ForgetSound(refs: Table, up: map<int, int>, depth: map<int, nat>, bound: nat, ids: int, list: seq<int>,
                    id: int, i: nat)
    requires Sound(refs, up, depth, bound, ids, list) && id in refs && i < |refs[id].locals|
    ensures var ls, diff := Without(refs[id].locals, i), -refs[id].locals[i].refs;
            && Sound(Shifted(WithLocals(refs, id, ls), up, depth, id, diff), up, depth, bound, ids, list)
            && Ready(WithLocals(refs, id, ls), up, depth, id, diff)
  {
    ForgetConsistent(refs, up, depth, id, i);
    assert WithLocals(refs, id, Without(refs[id].locals, i)).Keys == refs.Keys;
  }

  lemma ShiftNothing(refs: Table, up: map<int, int>, depth: map<int, nat>, id: int)
    requires Forest(up, depth) && up.Keys == refs.Keys
    requires id in refs
    ensures Shifted(refs, up, depth, id, 0) == refs && WithLocals(refs, id, refs[id].locals) == refs
  {
  }

  lemma ClearedNext(before: Table, mid: Table, refs: Table, list: seq<int>, fid: int, k: nat)
    requires k < |list| && Lists(list, before.Keys) && ClearedUpTo(before, mid, list, fid, k)
    requires refs.Keys == mid.Keys && ClearedAs(mid[list[k]], refs[list[k]], fid)
    requires forall r :: r in mid && r != list[k] ==> SameButLocal(mid[r], refs[r])
    ensures ClearedUpTo(before, refs, list, fid, k + 1)
  {
  }

  class Refs {
    var list: seq<int>
    var ids: int
    var refs: Table
    var notices: seq<int>
    ghost var up: map<int, int>
    ghost var depth: map<int, nat>
    ghost var bound: nat

    constructor ()
      ensures Valid() && refs == map[] && notices == []
    {
      list, ids, refs, notices := [], 0, map[], [];
      up, depth, bound := map[], map[], 0;
    }

    ghost predicate Valid()
      reads this
    {
      Sound(refs, up, depth, bound, ids, list)
    }

    /** Recurses into the inheritors first. */
    method PropagateLocal(id: int, diff: int, ghost bound: nat) returns (ghost news: seq<int>)
      requires 0 !in refs && up.Keys == refs.Keys && Forest(up, depth) && id in refs
      requires Ready(refs, up, depth, id, diff)
      requires forall r :: r in depth ==> depth[r] <= bound
      modifies this`refs, this`notices
      ensures refs == Shifted(old(refs), up, depth, id, diff)
      ensures notices == old(notices) + news && Announces(news, refs, up, depth, id)
      decreases bound - depth[id], 1
    {
      var cs := refs[id].inheritors;
      ghost var before := refs;
      news := PropagateToInheritors(id, diff, cs, bound);
      PartShiftedAll(before, up, depth, id, cs, diff);
      AnnouncesAll(news, refs, up, depth, id, cs, diff);
      refs := refs[id := refs[id].(local := refs[id].local + diff)];
      assert refs[id].local >= 0;
      if refs[id].local + refs[id].global == 0 {
        notices := notices + [id];
        news := news + [id];
      }
    }

    method PropagateToInheritors(id: int, diff: int, cs: seq<int>, ghost bound: nat) returns (ghost news: seq<int>)
      requires 0 !in refs && up.Keys == refs.Keys && Forest(up, depth) && id in refs
      requires ExactInheritors(up, id, cs) && Ready(refs, up, depth, id, diff)
      requires forall r :: r in depth ==> depth[r] <= bound
      modifies this`refs, this`notices
      ensures refs == PartShifted(old(refs), up, depth, id, cs, diff)
      ensures notices == old(notices) + news && PartAnnounces(news, refs, up, depth, id, cs)
      decreases bound - depth[id], 0
    {
      ghost var before := refs;
      news := [];
      for k := 0 to |cs|
        invariant refs == PartShifted(before, up, depth, id, cs[..k], diff)
        invariant notices == old(notices) + news
        invariant PartAnnounces(news, refs, up, depth, id, cs[..k])
      {
        ghost var mid := refs;
        assert cs[..k + 1] == cs[..k] + [cs[k]];
        ReadyChild(before, up, depth, id, cs[..k], diff, cs[k]);
        ghost var more := PropagateLocal(cs[k], diff, bound);
        PartShiftedNext(before, up, depth, id, cs[..k], cs[k], diff);
        PartAnnouncesNext(news, more, mid, up, depth, id, cs[..k], cs[k], diff);
        news := news + more;
      }
      assert cs[..|cs|] == cs;
    }

    method New(oom: bool) returns (status: Status, id: int)
      requires Valid()
      modifies this
      ensures Valid() && notices == old(notices)
      ensures status == if oom then Enomem else Ok
      ensures status != Ok ==> refs == old(refs) && ids == old(ids)
      ensures status == Ok ==>
                && id !in old(refs) && id == ids == old(ids) + 1
                && refs == old(refs)[id := Ref(0, 0, 0, 0, [], [], [])]
    {
      if oom {
        return Enomem, 0;
      }
      id := ids + 1;
      Add(id);
      return Ok, id;
    }

    method Add(id: int)
      requires Valid() && id == ids + 1
      modifies this
      ensures Valid() && notices == old(notices) && ids == id
      ensures id !in old(refs) && refs == old(refs)[id := NEW_REF]
    {
      NewSound(refs, up, depth, bound, ids, list);
      ids, refs, list := id, refs[id := NEW_REF], [id] + list;
      up, depth := up[id := 0], depth[id := 0];
    }

    /** The search of `add_local`, moving the node it finds to the front. */
    method AddLocal(id: int, fid: int, add: int, oom: bool) returns (status: Status)
      requires id in refs
      modifies this`refs
      ensures refs == WithLocals(old(refs), id, Added(old(refs)[id].locals, fid, add, oom).1)
      ensures status == Added(old(refs)[id].locals, fid, add, oom).0
    {
      var ls := refs[id].locals;
      for i := 0 to |ls|
        invariant refs == old(refs) && i <= Find(ls, fid)
      {
        if ls[i].fid == fid {
          var moved := [ls[i]] + ls[..i] + ls[i + 1..];
          assert moved == [ls[i]] + Without(ls, i);
          refs := refs[id := refs[id].(locals := moved)];
          if ls[i].refs + add < 0 {
            return Eio;
          }
          moved := [LocalRef(fid, ls[i].refs + add)] + moved[1..];
          refs := refs[id := refs[id].(locals := moved)];
          return Ok;
        }
      }
      if add <= 0 {
        return Eio;
      }
      if oom {
        return Enomem;
      }
      refs := refs[id := refs[id].(locals := [LocalRef(fid, add)] + ls)];
      return Ok;
    }

    /** `add_local` and, if it succeeds, `propagate_local`. */
    method ChangeLocal(id: int, fid: int, add: int, oom: bool) returns (status: Status, ghost news: seq<int>)
      requires Valid() && id in refs
      modifies this`refs, this`notices
      ensures Valid() && notices == old(notices) + news
      ensures Changed(old(refs), refs, up, depth, id, fid, add, oom, status, news)
    {
      ChangeConsistent(refs, up, depth, id, fid, add, oom);
      status := AddLocal(id, fid, add, oom);
      if status != Ok {
        return status, [];
      }
      news := PropagateLocal(id, add, bound);
    }

    method Up(id: int, fid: int, oom: bool) returns (status: Status, ghost news: seq<int>)
      requires Valid()
      modifies this`refs, this`notices
      ensures Valid() && notices == old(notices) + news
      ensures id !in old(refs) ==> status == Einval && refs == old(refs) && news == []
      ensures id in old(refs) && old(refs)[id].locked != 0 ==> status == Eagain && refs == old(refs) && news == []
      ensures id in old(refs) && old(refs)[id].locked == 0 && fid == 0 ==>
                && status == Ok && news == []
                && refs == old(refs)[id := old(refs)[id].(global := old(refs)[id].global + 1)]
      ensures id in old(refs) && old(refs)[id].locked == 0 && fid != 0 ==>
                Changed(old(refs), refs, up, depth, id, fid, 1, oom, status, news)
      ensures id in old(refs) && old(refs)[id].locked == 0 && fid != 0 ==>
                && status == (if oom && !Has(old(refs)[id].locals, fid) then Enomem else Ok)
                && Recounted(old(refs), refs, id, fid, if status == Ok then 1 else 0)
    {
      if id !in refs {
        return Einval, [];
      }
      if refs[id].locked != 0 {
        return Eagain, [];
      }
      if fid != 0 {
        assert ConservedAt(refs, id);
        status, news := ChangeLocal(id, fid, 1, oom);
        UpExactly(old(refs), refs, up, depth, id, fid, oom, status, news);
      } else {
        refs := refs[id := refs[id].(global := refs[id].global + 1)];
        assert ConservedAt(old(refs), id);
        AlikeConsistent(old(refs), refs, up, depth);
        return Ok, [];
      }
    }

    method Down(id: int, fid: int) returns (status: Status, ghost news: seq<int>)
      requires Valid()
      modifies this`refs, this`notices
      ensures Valid() && notices == old(notices) + news
      ensures id !in old(refs) ==> status == Einval && refs == old(refs) && news == []
      ensures id in old(refs) && old(refs)[id].locked != 0 ==> status == Eagain && refs == old(refs) && news == []
      ensures id in old(refs) && old(refs)[id].locked == 0 && fid == 0 ==>
                if old(refs)[id].global == 0 then status == Eio && refs == old(refs) && news == []
                else status == Ok && refs == old(refs)[id := old(refs)[id].(global := old(refs)[id].global - 1)]
                     && news == if refs[id].local + refs[id].global == 0 then [id] else []
      ensures id in old(refs) && old(refs)[id].locked == 0 && fid != 0 ==>
                if old(refs)[id].local == 0 then status == Eio && refs == old(refs) && news == []
                else Changed(old(refs), refs, up, depth, id, fid, -1, false, status, news)
      ensures id in old(refs) && old(refs)[id].locked == 0 && fid != 0 ==>
                && status == (if LocalOf(old(refs)[id].locals, fid) > 0 then Ok else Eio)
                && Recounted(old(refs), refs, id, fid, if status == Ok then -1 else 0)
    {
      if id !in refs {
        return Einval, [];
      }
      if refs[id].locked != 0 {
        return Eagain, [];
      }
      if fid != 0 {
        if refs[id].local == 0 {
          NoneLeft(refs, up, depth, id, fid);
          return Eio, [];
        }
        assert ConservedAt(refs, id);
        status, news := ChangeLocal(id, fid, -1, false);
        DownExactly(old(refs), refs, up, depth, id, fid, false, status, news);
      } else {
        if refs[id].global == 0 {
          return Eio, [];
        }
        news := DownGlobal(id);
        status := Ok;
      }
    }

    method DownGlobal(id: int) returns (ghost news: seq<int>)
      requires Valid() && id in refs && refs[id].global != 0
      modifies this`refs, this`notices
      ensures Valid() && notices == old(notices) + news
      ensures refs == old(refs)[id := old(refs)[id].(global := old(refs)[id].global - 1)]
      ensures news == if refs[id].local + refs[id].global == 0 then [id] else []
    {
      assert ConservedAt(refs, id);
      refs := refs[id := refs[id].(global := refs[id].global - 1)];
      AlikeConsistent(old(refs), refs, up, depth);
      news := [];
      if refs[id].local + refs[id].global == 0 {
        notices, news := notices + [id], [id];
      }
    }

    method Throw(id: int, fid: int, catcher: int, oom: bool) returns (status: Status)
      requires Valid()
      modifies this`refs
      ensures Valid()
      ensures status == (if id !in old(refs) then Einval
                         else if old(refs)[id].locked != 0 then Eagain
                         else if LocalOf(old(refs)[id].locals, fid) == 0 then Eio
                         else if ThrowsOf(old(refs)[id].throws, fid) == LocalOf(old(refs)[id].locals, fid) then Eio
                         else if oom then Enomem else Ok)
      ensures refs == if status != Ok then old(refs)
                      else old(refs)[id := old(refs)[id].(throws := old(refs)[id].throws + [Thrown(fid, catcher)])]
    {
      if id !in refs {
        return Einval;
      }
      if refs[id].locked != 0 {
        return Eagain;
      }
      var local := LocalOf(refs[id].locals, fid);
      if local == 0 {
        return Eio;
      }
      var throws := ThrowsOf(refs[id].throws, fid);
      if throws == local {
        return Eio;
      }
      if oom {
        return Enomem;
      }
      refs := refs[id := refs[id].(throws := refs[id].throws + [Thrown(fid, catcher)])];
      AlikeConsistent(old(refs), refs, up, depth);
      return Ok;
    }

    /** The throw is used up even when the thrower has nothing left to give. */
    method Catch(id: int, fid: int) returns (status: Status, ghost news: seq<int>)
      requires Valid()
      modifies this`refs, this`notices
      ensures Valid() && notices == old(notices) + news
      ensures id !in old(refs) ==> status == Einval && refs == old(refs) && news == []
      ensures id in old(refs) && old(refs)[id].locked != 0 ==> status == Eagain && refs == old(refs) && news == []
      ensures id in old(refs) && old(refs)[id].locked == 0 ==>
                var ts := old(refs)[id].throws;
                var k := FirstFor(ts, fid);
                if k == |ts| then status == Eacces && refs == old(refs) && news == []
                else Changed(old(refs)[id := old(refs)[id].(throws := ts[..k] + ts[k + 1..])], refs, up, depth, id,
                             ts[k].thrower, -1, false, status, news)
      ensures id in old(refs) && old(refs)[id].locked == 0 ==>
                var ts := old(refs)[id].throws;
                var k := FirstFor(ts, fid);
                k < |ts| ==>
                  && status == (if LocalOf(old(refs)[id].locals, ts[k].thrower) > 0 then Ok else Eio)
                  && Recounted(old(refs), refs, id, ts[k].thrower, if status == Ok then -1 else 0)
    {
      if id !in refs {
        return Einval, [];
      }
      if refs[id].locked != 0 {
        return Eagain, [];
      }
      var k := FindThrow(id, fid);
      if k == |refs[id].throws| {
        return Eacces, [];
      }
      status, news := CatchAt(id, k);
    }

    method FindThrow(id: int, fid: int) returns (k: nat)
      requires id in refs
      ensures k == FirstFor(refs[id].throws, fid)
    {
      var ts := refs[id].throws;
      k := 0;
      while k < |ts| && ts[k].catcher != fid
        invariant k <= FirstFor(ts, fid)
      {
        k := k + 1;
      }
    }

    method CatchAt(id: int, k: nat) returns (status: Status, ghost news: seq<int>)
      requires Valid() && id in refs && k < |refs[id].throws|
      modifies this`refs, this`notices
      ensures Valid() && notices == old(notices) + news
      ensures var ts := old(refs)[id].throws;
              && Changed(old(refs)[id := old(refs)[id].(throws := ts[..k] + ts[k + 1..])], refs, up, depth, id,
                         ts[k].thrower, -1, false, status, news)
              && status == (if LocalOf(old(refs)[id].locals, ts[k].thrower) > 0 then Ok else Eio)
              && Recounted(old(refs), refs, id, ts[k].thrower, if status == Ok then -1 else 0)
    {
      var ts := refs[id].throws;
      DropThrow(id, k);
      ghost var mid := refs;
      assert ConservedAt(mid, id);
      status, news := ChangeLocal(id, ts[k].thrower, -1, false);
      DownExactly(mid, refs, up, depth, id, ts[k].thrower, false, status, news);
    }

    method DropThrow(id: int, k: nat)
      requires Valid() && id in refs && k < |refs[id].throws|
      modifies this`refs
      ensures Valid()
      ensures var ts := old(refs)[id].throws;
              refs == old(refs)[id := old(refs)[id].(throws := ts[..k] + ts[k + 1..])]
    {
      refs := refs[id := refs[id].(throws := refs[id].throws[..k] + refs[id].throws[k + 1..])];
      AlikeConsistent(old(refs), refs, up, depth);
    }

    /** The caller must not make a reference inherit from one below it: see `AcyclicExactly`. */
    method Inherit(id: int, fromId: int, oom: bool) returns (status: Status, ghost news: seq<int>)
      requires Valid()
      requires id in refs && fromId in refs && refs[id].inherited == 0 ==> !Below(up, depth, fromId, id)
      modifies this`refs, this`notices, this`up, this`depth, this`bound
      ensures Valid() && notices == old(notices) + news
      ensures status == (if id !in old(refs) then Einval
                         else if old(refs)[id].inherited != 0 then Ebusy
                         else if fromId !in old(refs) then Einval
                         else if oom then Enomem else Ok)
      ensures status != Ok ==> refs == old(refs) && up == old(up) && news == []
      ensures status == Ok ==>
                && refs == Inherited(old(refs), old(up), old(depth), id, fromId)
                && up == old(up)[id := fromId]
                && Announces(news, refs, old(up), old(depth), id)
    {
      news := [];
      if id !in refs {
        return Einval, [];
      }
      if refs[id].inherited != 0 {
        return Ebusy, [];
      }
      var i := 0;
      while i < |list| && list[i] != fromId
        invariant i <= |list| && fromId !in list[..i]
      {
        i := i + 1;
      }
      if i == |list| {
        assert list[..i] == list;
        ListsAll(list, refs.Keys);
        return Einval, [];
      }
      if oom {
        return Enomem, [];
      }
      news := Link(id, fromId);
      return Ok, news;
    }

    /** `add_inheritor`, and pushing down what is inherited. */
    method Link(id: int, fromId: int) returns (ghost news: seq<int>)
      requires Valid() && id in refs && fromId in refs && refs[id].inherited == 0
      requires !Below(up, depth, fromId, id)
      modifies this`refs, this`notices, this`up, this`depth, this`bound
      ensures Valid() && notices == old(notices) + news
      ensures refs == Inherited(old(refs), old(up), old(depth), id, fromId)
      ensures up == old(up)[id := fromId]
      ensures Announces(news, refs, old(up), old(depth), id)
    {
      InheritedSound(refs, up, depth, bound, ids, list, id, fromId);
      news := LinkAndPush(id, fromId);
      up, depth, bound := up[id := fromId], Deepened(up, depth, id, fromId), 2 * bound + 1;
    }

    method LinkAndPush(id: int, fromId: int) returns (ghost news: seq<int>)
      requires 0 !in refs && up.Keys == refs.Keys && Forest(up, depth) && id in refs && fromId in refs
      requires Ready(WithInheritor(refs, id, fromId), up, depth, id, refs[fromId].local)
      requires forall r :: r in depth ==> depth[r] <= bound
      modifies this`refs, this`notices
      ensures refs == Inherited(old(refs), up, depth, id, fromId)
      ensures notices == old(notices) + news && Announces(news, refs, up, depth, id)
    {
      refs := refs[fromId := refs[fromId].(inheritors := [id] + refs[fromId].inheritors)];
      news := PropagateLocal(id, refs[fromId].local, bound);
      AnnouncesOnly(news, refs, up, depth, id, fromId);
      refs := refs[id := refs[id].(inherited := fromId)];
    }

    /** One round of `drop_inheritors`. */
    method DropInheritor(gone: int, c: int) returns (ghost news: seq<int>)
      requires Loose(refs, up, depth, gone) && c in refs && up[c] == gone
      requires forall r :: r in depth ==> depth[r] <= bound
      modifies this`refs, this`notices, this`up
      ensures refs == Dropped(old(refs), old(up), depth, c, old(refs)[gone].local)
      ensures up == old(up)[c := 0]
      ensures notices == old(notices) + news && Announces(news, refs, old(up), depth, c)
    {
      GoneIsAbove(refs, up, depth, c, gone);
      news := PropagateLocal(c, -refs[gone].local, bound);
      ghost var pushed := refs;
      refs := refs[c := refs[c].(inherited := 0)];
      AnnouncesSame(news, pushed, refs, up, depth, c);
      up := up[c := 0];
    }

    method DropInheritors(gone: int) returns (ghost news: seq<int>)
      requires Consistent(refs, up, depth) && gone in refs
      requires forall r :: r in depth ==> depth[r] <= bound
      modifies this`refs, this`notices, this`up
      ensures Dropping(old(refs), old(up), depth, gone, old(refs)[gone].inheritors, refs, up, news)
      ensures notices == old(notices) + news
    {
      var cs := refs[gone].inheritors;
      ghost var before, links := refs, up;
      DropStart(refs, up, depth, gone);
      news := [];
      for k := 0 to |cs|
        invariant Dropping(before, links, depth, gone, cs[..k], refs, up, news)
        invariant notices == old(notices) + news
      {
        ghost var more := DropAt(before, links, gone, cs, k, news);
        Associates(old(notices), news, more);
        news := news + more;
      }
      TakeAll(cs);
    }

    method DropAt(ghost before: Table, ghost links: map<int, int>, gone: int, cs: seq<int>, k: nat, ghost was: seq<int>)
      returns (ghost more: seq<int>)
      requires Forest(links, depth) && links.Keys == before.Keys && gone in before && gone != 0
      requires k < |cs| && ExactInheritors(links, gone, cs)
      requires Dropping(before, links, depth, gone, cs[..k], refs, up, was)
      requires forall r :: r in depth ==> depth[r] <= bound
      modifies this`refs, this`notices, this`up
      ensures Dropping(before, links, depth, gone, cs[..k + 1], refs, up, was + more)
      ensures notices == old(notices) + more
    {
      TakeNext(cs, k);
      SomeInheritors(links, gone, cs, k);
      more := DropNext(before, links, gone, cs[..k], cs[k], was);
    }

    method DropNext(ghost before: Table, ghost links: map<int, int>, gone: int, ghost cs: seq<int>, c: int,
                    ghost was: seq<int>)
      returns (ghost more: seq<int>)
      requires Forest(links, depth) && links.Keys == before.Keys && gone in before
      requires c in links && links[c] == gone && c !in cs && gone != 0
      requires forall x :: x in cs ==> x in links && links[x] == gone
      requires Dropping(before, links, depth, gone, cs, refs, up, was)
      requires forall r :: r in depth ==> depth[r] <= bound
      modifies this`refs, this`notices, this`up
      ensures Dropping(before, links, depth, gone, cs + [c], refs, up, was + more)
      ensures notices == old(notices) + more
    {
      DropTurn(before, links, depth, gone, cs, c, refs, up, was);
      more := DropInheritor(gone, c);
      DropStep(before, links, depth, gone, cs, c, old(refs), old(up), was, more);
    }

    method Destroy(id: int) returns (status: Status, ghost news: seq<int>)
      requires Valid()
      modifies this`list, this`refs, this`notices, this`up, this`depth
      ensures Valid() && notices == old(notices) + news
      ensures id !in old(refs) ==> status == Einval && refs == old(refs) && news == []
      ensures id in old(refs) ==>
                && status == Ok && refs == Destroyed(old(refs), old(up), old(depth), id)
                && PartAnnounces(news, PartDropped(old(refs), old(up), old(depth), id, old(refs)[id].inheritors),
                                 old(up), old(depth), id, old(refs)[id].inheritors)
    {
      if id !in refs {
        return Einval, [];
      }
      news := DestroyLocked(id);
      return Ok, news;
    }

    method DestroyLocked(id: int) returns (ghost news: seq<int>)
      requires Valid() && id in refs
      modifies this`list, this`refs, this`notices, this`up, this`depth
      ensures Valid() && notices == old(notices) + news
      ensures refs == Destroyed(old(refs), old(up), old(depth), id)
      ensures PartAnnounces(news, PartDropped(old(refs), old(up), old(depth), id, old(refs)[id].inheritors),
                            old(up), old(depth), id, old(refs)[id].inheritors)
    {
      ghost var was := list;
      list := Unlink(list, id);
      news := Destruct(id, was);
      up, depth := up - {id}, depth - {id};
    }

    /** `fusion_ref_destruct`, when `was` is what the list was before. */
    method Destruct(id: int, ghost was: seq<int>) returns (ghost news: seq<int>)
      requires Sound(refs, up, depth, bound, ids, was) && id in refs
      modifies this`refs, this`notices, this`up
      ensures notices == old(notices) + news
      ensures Sound(refs, up - {id}, depth - {id}, bound, ids, Remove(was, id))
      ensures refs == Destroyed(old(refs), old(up), depth, id)
      ensures PartAnnounces(news, PartDropped(old(refs), old(up), depth, id, old(refs)[id].inheritors),
                            old(up), depth, id, old(refs)[id].inheritors)
    {
      news := DropInheritors(id);
      DestroyedSound(old(refs), old(up), depth, bound, ids, was, id, refs, up, news);
      RemoveEntry(id);
    }

    method RemoveEntry(id: int)
      requires 0 !in refs && id in refs
      requires refs[id].inherited != 0 ==> refs[id].inherited in refs
      modifies this`refs
      ensures refs == Removed(old(refs), id)
    {
      var p := refs[id].inherited;
      if p != 0 {
        var cs := Unlink(refs[p].inheritors, id);
        refs := refs[p := refs[p].(inheritors := cs)];
      }
      refs := refs - {id};
    }

    method ZeroTrylock(id: int, fid: int) returns (status: Status)
      requires Valid()
      modifies this`refs
      ensures Valid()
      ensures status == (if id !in old(refs) then Einval
                         else if old(refs)[id].locked != 0 then (if old(refs)[id].locked == fid then Eio else Eagain)
                         else if old(refs)[id].global != 0 || old(refs)[id].local != 0 then Etoomanyrefs else Ok)
      ensures refs == if status == Ok then old(refs)[id := old(refs)[id].(locked := fid)] else old(refs)
    {
      if id !in refs {
        return Einval;
      }
      if refs[id].locked != 0 {
        return if refs[id].locked == fid then Eio else Eagain;
      }
      if refs[id].global != 0 || refs[id].local != 0 {
        return Etoomanyrefs;
      }
      refs := refs[id := refs[id].(locked := fid)];
      AlikeConsistent(old(refs), refs, up, depth);
      return Ok;
    }

    method ZeroUnlock(id: int, fid: int) returns (status: Status)
      requires Valid()
      modifies this`refs
      ensures Valid()
      ensures status == (if id !in old(refs) then Einval else if old(refs)[id].locked != fid then Eio else Ok)
      ensures refs == if status == Ok then old(refs)[id := old(refs)[id].(locked := 0)] else old(refs)
    {
      if id !in refs {
        return Einval;
      }
      if refs[id].locked != fid {
        return Eio;
      }
      refs := refs[id := refs[id].(locked := 0)];
      AlikeConsistent(old(refs), refs, up, depth);
      return Ok;
    }

    method ClearLocal(id: int, fid: int) returns (ghost news: seq<int>)
      requires Valid() && id in refs
      modifies this`refs, this`notices
      ensures Valid() && refs == Cleared(old(refs), up, depth, id, fid)
      ensures notices == old(notices) + news
      ensures if LocalOf(old(refs)[id].locals, fid) == 0 then news == [] else Announces(news, refs, up, depth, id)
    {
      Unlock(id, fid);
      news := ClearCount(id, fid);
    }

    method ClearCount(id: int, fid: int) returns (ghost news: seq<int>)
      requires Valid() && id in refs
      modifies this`refs, this`notices
      ensures Valid() && notices == old(notices) + news
      ensures var ls := old(refs)[id].locals;
              && refs == WithoutCount(old(refs), up, depth, id, fid)
              && if LocalOf(ls, fid) == 0 then news == [] else Announces(news, refs, up, depth, id)
    {
      var i := FindLocal(id, fid);
      if i == |refs[id].locals| {
        ShiftNothing(refs, up, depth, id);
        return [];
      }
      news := Forget(id, i);
    }

    method FindLocal(id: int, fid: int) returns (i: nat)
      requires id in refs
      ensures i == Find(refs[id].locals, fid)
    {
      var ls := refs[id].locals;
      i := 0;
      while i < |ls| && ls[i].fid != fid
        invariant i <= Find(ls, fid)
      {
        i := i + 1;
      }
    }

    method Unlock(id: int, fid: int)
      requires Valid() && id in refs
      modifies this`refs
      ensures Valid() && refs == Unlocked(old(refs), id, fid)
    {
      UnlockedConsistent(refs, up, depth, id, fid);
      if refs[id].locked == fid {
        refs := refs[id := refs[id].(locked := 0)];
      }
    }

    method Forget(id: int, i: nat) returns (ghost news: seq<int>)
      requires Valid() && id in refs && i < |refs[id].locals|
      modifies this`refs, this`notices
      ensures Valid() && notices == old(notices) + news
      ensures var ls := old(refs)[id].locals;
              && refs == Shifted(WithLocals(old(refs), id, Without(ls, i)), up, depth, id, -ls[i].refs)
              && if ls[i].refs == 0 then news == [] else Announces(news, refs, up, depth, id)
    {
      ForgetSound(refs, up, depth, bound, ids, list, id, i);
      news := TakeOut(id, i);
    }

    method TakeOut(id: int, i: nat) returns (ghost news: seq<int>)
      requires 0 !in refs && up.Keys == refs.Keys && Forest(up, depth) && id in refs && i < |refs[id].locals|
      requires Ready(WithLocals(refs, id, Without(refs[id].locals, i)), up, depth, id, -refs[id].locals[i].refs)
      requires forall r :: r in depth ==> depth[r] <= bound
      modifies this`refs, this`notices
      ensures notices == old(notices) + news
      ensures var ls := old(refs)[id].locals;
              && refs == Shifted(WithLocals(old(refs), id, Without(ls, i)), up, depth, id, -ls[i].refs)
              && if ls[i].refs == 0 then news == [] else Announces(news, refs, up, depth, id)
    {
      var ls := refs[id].locals;
      refs := refs[id := refs[id].(locals := Without(ls, i))];
      if ls[i].refs == 0 {
        ShiftNothing(refs, up, depth, id);
        return [];
      }
      news := PropagateLocal(id, -ls[i].refs, bound);
    }

    /** A fusionee's counts are taken out everywhere; each local count is then what the law says.
        Those that have lost their last count by it are notified, once each. */
    method ClearAllLocal(fid: int) returns (ghost news: seq<int>)
      requires Valid()
      modifies this`refs, this`notices
      ensures Valid() && refs.Keys == old(refs).Keys
      ensures forall r :: r in refs ==> ClearedAs(old(refs)[r], refs[r], fid)
      ensures notices == old(notices) + news && Emptied(news, old(refs), refs)
    {
      ghost var before := refs;
      news := [];
      for k := 0 to |list|
        invariant Valid() && ClearedUpTo(before, refs, list, fid, k)
        invariant notices == old(notices) + news && Emptied(news, before, refs) && Fewer(before, refs)
      {
        ghost var more := ClearNext(before, list, k, fid, news);
        Associates(old(notices), news, more);
        news := news + more;
      }
      ListsAll(list, refs.Keys);
    }

    method ClearNext(ghost before: Table, list: seq<int>, k: nat, fid: int, ghost news: seq<int>)
      returns (ghost more: seq<int>)
      requires Valid() && list == this.list && k < |list|
      requires ClearedUpTo(before, refs, list, fid, k) && Emptied(news, before, refs) && Fewer(before, refs)
      modifies this`refs, this`notices
      ensures Valid() && ClearedUpTo(before, refs, list, fid, k + 1)
      ensures notices == old(notices) + more && Emptied(news + more, before, refs) && Fewer(before, refs)
    {
      ghost var mid := refs;
      ClearedRest(mid, up, depth, list[k], fid);
      more := ClearLocal(list[k], fid);
      ClearedNext(before, mid, refs, list, fid, k);
      ClearedEmpties(before, mid, up, depth, list[k], fid, news, more);
    }
  }
}
