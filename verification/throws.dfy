/** Throwing references (ref.c): when the throws of a fusionee stay within its counts.

    A throw looks only whether a fusionee has exactly as many throws as counts, and taking a
    count away does not look at throws at all, so they can get ahead of the counts. */
module Throws {
  import opened Errno
  import opened Refs
  import opened Sequences

  /** The guard of a throw: it looks for equality only. */
  predicate MayThrow(r: Ref, fid: int) {
    LocalOf(r.locals, fid) != 0 && ThrowsOf(r.throws, fid) != LocalOf(r.locals, fid)
  }

  /** A fusionee has thrown no more than it has. */
  predicate CoveredFor(r: Ref, fid: int) {
    ThrowsOf(r.throws, fid) <= LocalOf(r.locals, fid)
  }

  ghost predicate Covered(r: Ref) {
    forall fid {:trigger CoveredFor(r, fid)} :: CoveredFor(r, fid)
  }

  lemma {:induction false} ThrowsAppend(a: seq<Thrown>, b: seq<Thrown>, fid: int)
    ensures ThrowsOf(a + b, fid) == ThrowsOf(a, fid) + ThrowsOf(b, fid)
  {
    if a == [] {
      assert a + b == b;
    } else {
      ThrowsAppend(a[1..], b, fid);
      assert (a + b)[1..] == a[1..] + b;
    }
  }

  lemma OneThrow(t: Thrown, fid: int)
    ensures ThrowsOf([t], fid) == if t.thrower == fid then 1 else 0
  {
    assert [t][1..] == [];
  }

  lemma ThrowAdded(ts: seq<Thrown>, t: Thrown, fid: int)
    ensures ThrowsOf(ts + [t], fid) == ThrowsOf(ts, fid) + if t.thrower == fid then 1 else 0
  {
    ThrowsAppend(ts, [t], fid);
    OneThrow(t, fid);
  }

  lemma ThrowTaken(ts: seq<Thrown>, k: nat, fid: int)
    requires k < |ts|
    ensures ThrowsOf(ts[..k] + ts[k + 1..], fid) == ThrowsOf(ts, fid) - if ts[k].thrower == fid then 1 else 0
  {
    Halves(ts, k);
    DropFirst(ts[k..]);
    assert ts[k..][0] == ts[k] && ts[k..][1..] == ts[k + 1..];
    ThrowsAppend(ts[..k], ts[k..], fid);
    ThrowsAppend([ts[k]], ts[k + 1..], fid);
    OneThrow(ts[k], fid);
    ThrowsAppend(ts[..k], ts[k + 1..], fid);
  }

  lemma ForgottenLocal(ls: seq<LocalRef>, fid: int, f: int)
    requires Proper(ls)
    ensures LocalOf(Forgotten(ls, fid), f) == if f == fid then 0 else LocalOf(ls, f)
  {
    var i := Find(ls, fid);
    if i < |ls| {
      LocalWithout(ls, i, f);
    }
  }

  /** A throw that succeeds keeps them covered. */
  lemma ThrowKeeps(r: Ref, fid: int, catcher: int)
    requires Covered(r) && MayThrow(r, fid)
    ensures Covered(r.(throws := r.throws + [Thrown(fid, catcher)]))
  {
    forall f
      ensures CoveredFor(r.(throws := r.throws + [Thrown(fid, catcher)]), f)
    {
      assert CoveredFor(r, f);
      ThrowAdded(r.throws, Thrown(fid, catcher), f);
    }
  }

  lemma UpKeeps(r: Ref, fid: int, oom: bool)
    requires Covered(r) && Proper(r.locals)
    ensures Covered(r.(locals := Added(r.locals, fid, 1, oom).1))
  {
    forall f
      ensures CoveredFor(r.(locals := Added(r.locals, fid, 1, oom).1), f)
    {
      assert CoveredFor(r, f);
      AddedLocal(r.locals, fid, 1, oom, f);
    }
  }

  /** Taking a count away keeps them covered if and only if the fusionee has thrown less than it had. */
  lemma DownKeepsExactly(r: Ref, fid: int)
    requires Covered(r) && Proper(r.locals) && Added(r.locals, fid, -1, false).0 == Ok
    ensures Covered(r.(locals := Added(r.locals, fid, -1, false).1)) <==>
            ThrowsOf(r.throws, fid) < LocalOf(r.locals, fid)
  {
    var after := r.(locals := Added(r.locals, fid, -1, false).1);
    forall f
      ensures CoveredFor(after, f) <==> f != fid || ThrowsOf(r.throws, fid) < LocalOf(r.locals, fid)
    {
      assert CoveredFor(r, f);
      AddedLocal(r.locals, fid, -1, false, f);
    }
    assert Covered(after) ==> CoveredFor(after, fid);
  }

  /** A fusionee that leaves must have no throws outstanding. */
  lemma ClearKeepsExactly(r: Ref, fid: int)
    requires Covered(r) && Proper(r.locals)
    ensures Covered(r.(locals := Forgotten(r.locals, fid))) <==> ThrowsOf(r.throws, fid) == 0
  {
    var after := r.(locals := Forgotten(r.locals, fid));
    forall f
      ensures CoveredFor(after, f) <==> f != fid || ThrowsOf(r.throws, fid) == 0
    {
      assert CoveredFor(r, f);
      ForgottenLocal(r.locals, fid, f);
    }
    assert Covered(after) ==> CoveredFor(after, fid);
  }

  /** A catch takes a throw and, if it can, a count of the same fusionee. */
  lemma CatchKeeps(r: Ref, k: nat)
    requires Covered(r) && Proper(r.locals) && k < |r.throws|
    ensures var left := r.throws[..k] + r.throws[k + 1..];
            Covered(r.(throws := left, locals := Added(r.locals, r.throws[k].thrower, -1, false).1))
  {
    var left, thrower := r.throws[..k] + r.throws[k + 1..], r.throws[k].thrower;
    forall f
      ensures CoveredFor(r.(throws := left, locals := Added(r.locals, thrower, -1, false).1), f)
    {
      assert CoveredFor(r, f);
      ThrowTaken(r.throws, k, f);
      AddedLocal(r.locals, thrower, -1, false, f);
    }
  }

  /** What is thrown can be caught: if nobody has thrown to the catcher before, the catch finds this
      throw, takes one count from the thrower, and leaves the throws as they were. */
  lemma ThrowThenCatch(r: Ref, fid: int, catcher: int)
    requires Proper(r.locals) && MayThrow(r, fid) && forall i :: 0 <= i < |r.throws| ==> r.throws[i].catcher != catcher
    ensures var ts := r.throws + [Thrown(fid, catcher)];
            var k := FirstFor(ts, catcher);
            && k < |ts| && ts[k].thrower == fid && ts[..k] + ts[k + 1..] == r.throws
            && Added(r.locals, fid, -1, false).0 == Ok
  {
    var ts := r.throws + [Thrown(fid, catcher)];
    assert ts[|r.throws|].catcher == catcher;
    assert forall i :: 0 <= i < |r.throws| ==> ts[i] == r.throws[i];
    NoneWithout(r.locals, fid);
    AddedExactly(r.locals, fid, -1, false, fid);
  }

  lemma OnlyLocal(n: int, add: int)
    requires n + add >= 0
    ensures Added([LocalRef(1, n)], 1, add, false) == (Ok, [LocalRef(1, n + add)])
    ensures LocalOf([LocalRef(1, n)], 1) == n
  {
    var ls := [LocalRef(1, n)];
    assert Find(ls, 1) == 0;
    assert [LocalRef(1, n + add)] + Without(ls, 0) == [LocalRef(1, n + add)];
  }

  lemma FirstLocal()
    ensures Added([], 1, 1, false) == (Ok, [LocalRef(1, 1)])
  {
    assert [LocalRef(1, 1)] + [] == [LocalRef(1, 1)];
  }

  lemma ThreeThrows(t: Thrown)
    ensures ThrowsOf([], t.thrower) == 0 && ThrowsOf([t], t.thrower) == 1
    ensures ThrowsOf([t, t], t.thrower) == 2 && ThrowsOf([t, t, t], t.thrower) == 3
  {
    OneThrow(t, t.thrower);
    assert [t, t] == [t] + [t];
    ThrowAdded([t], t, t.thrower);
    assert [t, t, t] == [t, t] + [t];
    ThrowAdded([t, t], t, t.thrower);
  }

  /** One fusionee goes up twice, throws twice, goes down, and throws again: each of these
      succeeds, and in the end it has thrown three of the one reference it has. */
  lemma ThrowsGetAhead()
    ensures var first := Added([], 1, 1, false);
            var second := Added(first.1, 1, 1, false);
            var down := Added(second.1, 1, -1, false);
            var t := Thrown(1, 2);
            var two := NEW_REF.(locals := second.1);
            && first.0 == second.0 == down.0 == Ok
            && MayThrow(two, 1) && MayThrow(two.(throws := [t]), 1)
            && MayThrow(two.(locals := down.1, throws := [t, t]), 1)
            && ThrowsOf([t, t, t], 1) == 3 > LocalOf(down.1, 1) == 1
  {
    FirstLocal();
    OnlyLocal(1, 1);
    OnlyLocal(2, -1);
    OnlyLocal(1, 0);
    ThreeThrows(Thrown(1, 2));
  }
}
