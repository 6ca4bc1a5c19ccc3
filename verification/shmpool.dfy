/** The address allocator of shared memory pools (shmpool.c). */
module ShmPools {
  import opened Errno

  const PAGE: nat := 0x1000
  const CHUNK: nat := 0x1_0000
  const RESERVED: nat := 0x8_0000

  /** A live pool and the `next_base` of its address entry. */
  datatype Pool = Pool(base: nat, max: nat, next: nat)

  function PageAlign(x: nat): (y: nat)
    ensures x <= y < x + PAGE && y % PAGE == 0
  {
    (x + 0xfff) / 0x1000 * 0x1000
  }

  function ChunkAlign(x: nat): (y: nat)
    ensures x <= y < x + CHUNK && y % CHUNK == 0
  {
    (x + 0xffff) / 0x1_0000 * 0x1_0000
  }

  function Next(base: nat, max: nat): (next: nat)
    ensures base + PageAlign(max) + PAGE <= next && next % CHUNK == 0
  {
    ChunkAlign(base + PageAlign(max) + PAGE)
  }

  /** No address is wasted but to keep a page free and start on a chunk: `next` is the first such address. */
  lemma NextIsFirst(base: nat, max: nat)
    ensures var next := Next(base, max);
            && base + max + PAGE <= next && next % CHUNK == 0
            && forall a: nat {:trigger a % CHUNK} :: a % CHUNK == 0 && base + PageAlign(max) + PAGE <= a ==> next <= a
    ensures max <= PageAlign(max)
    ensures forall m: nat {:trigger m % PAGE} :: m % PAGE == 0 && max <= m ==> PageAlign(max) <= m
  {
    forall a: nat | a % CHUNK == 0 && base + PageAlign(max) + PAGE <= a
      ensures Next(base, max) <= a
    {
      NoChunkBetween(base + PageAlign(max) + PAGE, a);
    }
    forall m: nat | m % PAGE == 0 && max <= m
      ensures PageAlign(max) <= m
    {
      NoPageBetween(max, m);
    }
  }

  lemma NoChunkBetween(x: nat, y: nat)
    requires y % CHUNK == 0 && x <= y
    ensures ChunkAlign(x) <= y
  {
  }

  lemma NoPageBetween(x: nat, y: nat)
    requires y % PAGE == 0 && x <= y
    ensures PageAlign(x) <= y
  {
  }

  /** The first free address: the largest `next` of the live pools, or the start. */
  function Base(start: nat, pools: seq<Pool>): nat {
    if pools == [] then start
    else
      var b := Base(start, pools[1..]);
      if pools[0].next > b then pools[0].next else b
  }

  lemma {:induction false} BaseIs(start: nat, pools: seq<Pool>)
    ensures var b := Base(start, pools);
            && b >= start
            && (forall i :: 0 <= i < |pools| ==> pools[i].next <= b)
            && (b == start || exists i :: 0 <= i < |pools| && pools[i].next == b)
            && ((forall i :: 0 <= i < |pools| ==> pools[i].next % CHUNK == 0) ==> b == start || b % CHUNK == 0)
  {
    if pools == [] {
    } else {
      BaseIs(start, pools[1..]);
      assert forall i :: 0 < i < |pools| ==> pools[i] == pools[1..][i - 1];
    }
  }

  /** `q` lies behind `p`, with a page between them. */
  predicate Behind(p: Pool, q: Pool) {
    p.base + PageAlign(p.max) + PAGE <= q.base
  }

  ghost predicate PoolInv(p: Pool, start: nat, end: nat) {
    && start <= p.base && p.base + p.max < end && p.max > 0
    && p.next == Next(p.base, p.max)
    && (p.base == start || p.base % CHUNK == 0)
  }

  /** The list is newest first, and newer pools lie behind older ones. */
  ghost predicate Inv(pools: seq<Pool>, start: nat, end: nat) {
    && (forall i :: 0 <= i < |pools| ==> PoolInv(pools[i], start, end))
    && (forall i, j :: 0 <= i < j < |pools| ==> pools[j].next <= pools[i].base)
  }

  /** Live pools never overlap and never touch; they lie in the window, and all of them are
      aligned if the window's start is, or they do not begin there. */
  lemma PoolsApart(pools: seq<Pool>, start: nat, end: nat, i: nat, j: nat)
    requires Inv(pools, start, end) && i < |pools| && j < |pools| && i != j
    ensures Behind(pools[i], pools[j]) || Behind(pools[j], pools[i])
    ensures start <= pools[i].base < pools[i].base + pools[i].max < end
    ensures pools[i].base % CHUNK == 0 <==> pools[i].base != start || start % CHUNK == 0
  {
  }

  lemma CreateKeeps(pools: seq<Pool>, start: nat, end: nat, max: nat)
    requires Inv(pools, start, end) && max > 0 && Base(start, pools) + max < end
    ensures var b := Base(start, pools);
            && Inv([Pool(b, max, Next(b, max))] + pools, start, end)
            && Base(start, [Pool(b, max, Next(b, max))] + pools) == Next(b, max)
  {
    var b := Base(start, pools);
    BaseIs(start, pools);
    var created := [Pool(b, max, Next(b, max))] + pools;
    assert created[1..] == pools;
    assert forall i :: 0 < i < |created| ==> created[i] == pools[i - 1];
    assert PoolInv(created[0], start, end);
  }

  lemma DestroyKeeps(pools: seq<Pool>, start: nat, end: nat, i: nat)
    requires Inv(pools, start, end) && i < |pools|
    ensures Inv(pools[..i] + pools[i + 1..], start, end)
  {
  }

  /** Destroying the newest pool recovers exactly the address space it took. */
  lemma TrailingSpaceRecovered(pools: seq<Pool>, start: nat, end: nat, max: nat)
    requires Inv(pools, start, end) && max > 0 && Base(start, pools) + max < end
    ensures var b := Base(start, pools);
            var created := [Pool(b, max, Next(b, max))] + pools;
            Base(start, created[..0] + created[1..]) == b < Base(start, created)
  {
    var b := Base(start, pools);
    var created := [Pool(b, max, Next(b, max))] + pools;
    assert created[..0] + created[1..] == pools;
    CreateKeeps(pools, start, end, max);
  }

  class FusionShmPools {
    const shmBase: nat
    const shmSize: nat
    var addrBase: nat
    var pools: seq<Pool>

    constructor (shmBase: nat, shmSize: nat)
      ensures Valid() && pools == [] && this.shmBase == shmBase && this.shmSize == shmSize
    {
      this.shmBase, this.shmSize := shmBase, shmSize;
      addrBase, pools := shmBase + RESERVED, [];
    }

    ghost predicate Valid()
      reads this
    {
      && Inv(pools, shmBase + RESERVED, shmBase + shmSize)
      && addrBase == Base(shmBase + RESERVED, pools)
    }

    method Create(maxSize: int) returns (status: Status, base: nat)
      requires Valid()
      modifies this
      ensures Valid()
      ensures status == (if maxSize <= 0 then Einval
                         else if old(addrBase) + maxSize >= shmBase + shmSize then Enospc else Ok)
      ensures status != Ok ==> pools == old(pools) && addrBase == old(addrBase)
      ensures status == Ok ==>
                && base == old(addrBase)
                && pools == [Pool(base, maxSize, addrBase)] + old(pools)
    {
      base := 0;
      if maxSize <= 0 {
        return Einval, base;
      }
      if addrBase + maxSize >= shmBase + shmSize {
        return Enospc, base;
      }
      CreateKeeps(pools, shmBase + RESERVED, shmBase + shmSize, maxSize);
      base := addrBase;
      Advance(maxSize);
      pools := [Pool(base, maxSize, addrBase)] + pools;
      return Ok, base;
    }

    method Advance(maxSize: nat)
      modifies this`addrBase
      ensures addrBase == Next(old(addrBase), maxSize)
    {
      addrBase := addrBase + PageAlign(maxSize) + PAGE;
      addrBase := ChunkAlign(addrBase);
    }

    /** The base is computed again from the pools that remain. */
    method Destroy(i: nat)
      requires Valid() && i < |pools|
      modifies this
      ensures Valid() && pools == old(pools)[..i] + old(pools)[i + 1..]
    {
      DestroyKeeps(pools, shmBase + RESERVED, shmBase + shmSize, i);
      pools := pools[..i] + pools[i + 1..];
      addrBase := Rebase();
    }

    method Rebase() returns (base: nat)
      ensures base == Base(shmBase + RESERVED, pools)
    {
      base := shmBase + RESERVED;
      for k := 0 to |pools|
        invariant base == Base(shmBase + RESERVED, pools[..k])
      {
        BaseNext(shmBase + RESERVED, pools, k);
        if pools[k].next > base {
          base := pools[k].next;
        }
      }
      assert pools[..|pools|] == pools;
    }
  }

  lemma {:induction false} BaseNext(start: nat, pools: seq<Pool>, k: nat)
    requires k < |pools|
    ensures Base(start, pools[..k + 1]) == if pools[k].next > Base(start, pools[..k]) then pools[k].next
            else Base(start, pools[..k])
  {
    if k == 0 {
    } else {
      BaseNext(start, pools[1..], k - 1);
      assert pools[..k + 1][1..] == pools[1..][..k];
      assert pools[..k][1..] == pools[1..][..k - 1];
    }
  }
}
