/** The chained hash table (hash.c): it is a finite map for any hash function, and its
    resizing costs at most two node moves per operation. */
module Hash {
  import opened Errno
  import opened Sequences

  const MIN_SIZE: nat := 11
  const MAX_SIZE: nat := 13845163

  const PRIMES: seq<nat> := [
    11, 19, 37, 73, 109, 163, 251, 367, 557, 823, 1237, 1861, 2777, 4177, 6247, 9371, 14057,
    21089, 31627, 47431, 71143, 106721, 160073, 240101, 360163, 540217, 810343, 1215497,
    1823231, 2734867, 4102283, 6153409, 9230113, 13845163]

  // Sizes.

  /** `fusion_hash_should_resize`. */
  predicate ShouldResize(size: nat, n: nat) {
    (size >= 3 * n && size > MIN_SIZE) || (3 * size <= n && size < MAX_SIZE)
  }

  /** `spaced_primes_closest`, from index `i` on. */
  function Closest(primes: seq<nat>, i: nat, num: nat): nat
    requires primes != []
    decreases |primes| - i
  {
    if i < |primes| then (if primes[i] > num then primes[i] else Closest(primes, i + 1, num))
    else primes[|primes| - 1]
  }

  /** The size a table with `n` nodes is resized to. */
  function NewSize(n: nat): nat {
    var p := Closest(PRIMES, 0, n);
    if p > MAX_SIZE then MAX_SIZE else if p < MIN_SIZE then MIN_SIZE else p
  }

  /** Each number is larger than the one before it, but less than twice as large. */
  ghost predicate Spaced(primes: seq<nat>) {
    primes != [] && forall i :: 0 <= i < |primes| - 1 ==> primes[i] < primes[i + 1] < 2 * primes[i]
  }

  lemma PrimesSpaced()
    ensures Spaced(PRIMES) && PRIMES[0] == MIN_SIZE && PRIMES[|PRIMES| - 1] == MAX_SIZE
  {
    forall i | 0 <= i < |PRIMES| - 1
      ensures PRIMES[i] < PRIMES[i + 1] < 2 * PRIMES[i]
    {
      PrimeSpaced(i);
    }
  }

  lemma PrimeSpaced(i: nat)
    requires i < |PRIMES| - 1
    ensures PRIMES[i] < PRIMES[i + 1] < 2 * PRIMES[i]
  {
  }

  lemma {:induction false} Grow(primes: seq<nat>, i: nat, j: nat)
    requires Spaced(primes) && i <= j < |primes|
    ensures primes[i] <= primes[j]
    decreases j
  {
    if i == j {
    } else {
      Grow(primes, i, j - 1);
      assert primes[j - 1] < primes[j - 1 + 1];
    }
  }

  lemma {:induction false} ClosestIs(primes: seq<nat>, i: nat, num: nat)
    requires Spaced(primes) && i <= |primes| && (i > 0 ==> primes[i - 1] <= num)
    ensures var p, last := Closest(primes, i, num), primes[|primes| - 1];
            && (p > num || p == last)
            && (p == primes[0] || p < 2 * num)
            && primes[0] <= p <= last
    decreases |primes| - i
  {
    if i == |primes| {
      Grow(primes, 0, i - 1);
    } else if primes[i] <= num {
      ClosestIs(primes, i + 1, num);
    } else {
      Grow(primes, 0, i);
      Grow(primes, i, |primes| - 1);
      assert i > 0 ==> primes[i - 1] < primes[i - 1 + 1] < 2 * primes[i - 1];
    }
  }

  /** The smallest of the numbers above `n`, or the last one if there is none. */
  ghost predicate Smallest(primes: seq<nat>, p: nat, n: nat) {
    && p in primes
    && (forall i :: 0 <= i < |primes| && primes[i] > n ==> n < p <= primes[i])
    && (p <= n ==> p == primes[|primes| - 1])
  }

  lemma {:induction false} ClosestIsSmallest(primes: seq<nat>, i: nat, n: nat)
    requires Spaced(primes) && i <= |primes| && forall j :: 0 <= j < i ==> primes[j] <= n
    ensures Smallest(primes, Closest(primes, i, n), n)
    decreases |primes| - i
  {
    if i == |primes| {
      assert primes[i - 1] in primes;
    } else if primes[i] > n {
      forall j | 0 <= j < |primes| && primes[j] > n
        ensures primes[i] <= primes[j]
      {
        Grow(primes, i, j);
      }
    } else {
      ClosestIsSmallest(primes, i + 1, n);
    }
  }

  lemma NewSizeIs(n: nat)
    ensures Smallest(PRIMES, NewSize(n), n)
    ensures NewSize(n) == Closest(PRIMES, 0, n) && MIN_SIZE <= NewSize(n) <= MAX_SIZE
    ensures NewSize(n) > n || NewSize(n) == MAX_SIZE
    ensures NewSize(n) == MIN_SIZE || NewSize(n) < 2 * n
  {
    PrimesSpaced();
    ClosestIs(PRIMES, 0, n);
    ClosestIsSmallest(PRIMES, 0, n);
  }

  method NewSizeFor(n: nat) returns (size: nat)
    ensures size == NewSize(n) && Smallest(PRIMES, size, n)
  {
    NewSizeIs(n);
    var primes := PRIMES;
    size := primes[|primes| - 1];
    for i := 0 to |primes|
      invariant size == primes[|primes| - 1] && Closest(primes, 0, n) == Closest(primes, i, n)
    {
      if primes[i] > n {
        size := primes[i];
        break;
      }
    }
    if size > MAX_SIZE {
      size := MAX_SIZE;
    }
    if size < MIN_SIZE {
      size := MIN_SIZE;
    }
  }

  /** A table that has just been resized need not be. */
  lemma ResizedFits(n: nat)
    ensures var p := NewSize(n);
            && !ShouldResize(p, n)
            && (p > n || p == MAX_SIZE)
            && (p == MIN_SIZE || p < 2 * n)
            && MIN_SIZE <= p <= MAX_SIZE
  {
    NewSizeIs(n);
  }

  /** A table need not be resized exactly if its chains are shorter than three nodes on average, or it is as
      large as can be; and it is not three times as large as it has nodes, or as small as can be. */
  lemma LoadExactly(size: nat, n: nat)
    ensures !ShouldResize(size, n) <==> (n < 3 * size || size >= MAX_SIZE) && (size < 3 * n || size <= MIN_SIZE)
  {
  }

  // Chains and buckets.

  datatype Option<V> = None | Some(value: V)

  datatype Node<K, V> = Node(key: K, value: V)

  /** The node with this key in a chain, or the chain's length. */
  function Find<K(==), V>(chain: seq<Node<K, V>>, key: K): (i: nat)
    ensures i <= |chain|
    ensures i < |chain| ==> chain[i].key == key
    ensures forall j :: 0 <= j < i ==> chain[j].key != key
  {
    FirstWhere(chain, (n: Node<K, V>) => n.key == key)
  }

  ghost predicate Distinct<K, V>(chain: seq<Node<K, V>>) {
    forall i, j :: 0 <= i < j < |chain| ==> chain[i].key != chain[j].key
  }

  function Bucket<K>(h: K -> nat, size: nat, key: K): (b: nat)
    requires size > 0
    ensures b < size
  {
    h(key) % size
  }

  /** What a bucket holds belongs there, and no key is in it twice. */
  ghost predicate Sound<K, V>(h: K -> nat, bs: seq<seq<Node<K, V>>>, b: nat)
    requires b < |bs|
  {
    && Distinct(bs[b])
    && (forall j :: 0 <= j < |bs[b]| ==> Bucket(h, |bs|, bs[b][j].key) == b)
  }

  ghost function Value<K, V>(h: K -> nat, bs: seq<seq<Node<K, V>>>, key: K): Option<V>
    requires |bs| > 0
  {
    var chain := bs[Bucket(h, |bs|, key)];
    var i := Find(chain, key);
    if i < |chain| then Some(chain[i].value) else None
  }

  function Get<K, V>(m: map<K, V>, key: K): Option<V> {
    if key in m then Some(m[key]) else None
  }

  /** The buckets represent the map. */
  ghost predicate Represents<K(!new), V>(h: K -> nat, bs: seq<seq<Node<K, V>>>, m: map<K, V>) {
    && |bs| > 0
    && (forall b {:trigger Sound(h, bs, b)} :: 0 <= b < |bs| ==> Sound(h, bs, b))
    && (forall k {:trigger Value(h, bs, k)} :: Value(h, bs, k) == Get(m, k))
  }

  function Total<K, V>(bs: seq<seq<Node<K, V>>>): nat {
    if bs == [] then 0 else Total(bs[..|bs| - 1]) + |bs[|bs| - 1]|
  }

  lemma {:induction false} TotalSet<K, V>(bs: seq<seq<Node<K, V>>>, b: nat, chain: seq<Node<K, V>>)
    requires b < |bs|
    ensures Total(bs[b := chain]) == Total(bs) - |bs[b]| + |chain|
  {
    var n := |bs| - 1;
    if b < n {
      TotalSet(bs[..n], b, chain);
      assert bs[b := chain][..n] == bs[..n][b := chain];
    } else {
      assert bs[b := chain][..n] == bs[..n];
    }
  }

  /** Replacing one chain by another that belongs in the same bucket. */
  lemma ChainSet<K(!new), V>(h: K -> nat, bs: seq<seq<Node<K, V>>>, m: map<K, V>, b: nat, chain: seq<Node<K, V>>,
                   m': map<K, V>)
    requires Represents(h, bs, m) && b < |bs|
    requires Distinct(chain) && forall j :: 0 <= j < |chain| ==> Bucket(h, |bs|, chain[j].key) == b
    requires forall k :: Get(m', k) ==
               if Bucket(h, |bs|, k) == b then
                 (if Find(chain, k) < |chain| then Some(chain[Find(chain, k)].value) else None)
               else Get(m, k)
    ensures Represents(h, bs[b := chain], m')
  {
    var bs' := bs[b := chain];
    forall c | 0 <= c < |bs'|
      ensures Sound(h, bs', c)
    {
      assert Sound(h, bs, c);
    }
    forall k
      ensures Value(h, bs', k) == Get(m', k)
    {
      assert Value(h, bs, k) == Get(m, k);
    }
  }

  lemma FindAppended<K, V>(chain: seq<Node<K, V>>, n: Node<K, V>, k: K)
    requires Find(chain, n.key) == |chain|
    ensures Find(chain + [n], k) == if k == n.key then |chain|
            else if Find(chain, k) < |chain| then Find(chain, k) else |chain| + 1
  {
    var i, j := Find(chain + [n], k), Find(chain, k);
    assert j < |chain| ==> (chain + [n])[j].key == k;
    assert (chain + [n])[|chain|] == n;
  }

  lemma FindPrepended<K, V>(chain: seq<Node<K, V>>, n: Node<K, V>, k: K)
    ensures Find([n] + chain, k) == if k == n.key then 0 else 1 + Find(chain, k)
  {
    assert ([n] + chain)[1..] == chain;
  }

  lemma FindRemoved<K, V>(chain: seq<Node<K, V>>, i: nat, k: K)
    requires i < |chain| && Distinct(chain)
    ensures var rest := chain[..i] + chain[i + 1..];
            var f, g := Find(chain, k), Find(rest, k);
            && Distinct(rest)
            && (k == chain[i].key ==> g == |rest|)
            && (k != chain[i].key ==> (f < |chain| <==> g < |rest|) && (f < |chain| ==> rest[g] == chain[f]))
  {
    var rest := chain[..i] + chain[i + 1..];
    assert forall j :: 0 <= j < |rest| ==> rest[j] == chain[if j < i then j else j + 1];
    var f, g := Find(chain, k), Find(rest, k);
    if f < |chain| && f != i {
      assert rest[if f < i then f else f - 1] == chain[f];
    }
  }

  /** A new node at the end of its chain, or at the front. */
  lemma Appended<K(!new), V>(h: K -> nat, bs: seq<seq<Node<K, V>>>, m: map<K, V>, n: Node<K, V>)
    requires Represents(h, bs, m) && n.key !in m
    ensures var b := Bucket(h, |bs|, n.key);
            Represents(h, bs[b := bs[b] + [n]], m[n.key := n.value])
  {
    var b := Bucket(h, |bs|, n.key);
    assert Sound(h, bs, b);
    assert Value(h, bs, n.key) == Get(m, n.key);
    forall k
      ensures Get(m[n.key := n.value], k) ==
              if Bucket(h, |bs|, k) == b then
                var i := Find(bs[b] + [n], k); (if i < |bs[b]| + 1 then Some((bs[b] + [n])[i].value) else None)
              else Get(m, k)
    {
      assert Value(h, bs, k) == Get(m, k);
      FindAppended(bs[b], n, k);
    }
    ChainSet(h, bs, m, b, bs[b] + [n], m[n.key := n.value]);
  }

  lemma Prepended<K(!new), V>(h: K -> nat, bs: seq<seq<Node<K, V>>>, m: map<K, V>, n: Node<K, V>)
    requires Represents(h, bs, m) && n.key !in m
    ensures var b := Bucket(h, |bs|, n.key);
            Represents(h, bs[b := [n] + bs[b]], m[n.key := n.value])
  {
    var b := Bucket(h, |bs|, n.key);
    assert Sound(h, bs, b);
    assert Value(h, bs, n.key) == Get(m, n.key);
    forall k
      ensures Get(m[n.key := n.value], k) ==
              if Bucket(h, |bs|, k) == b then
                var i := Find([n] + bs[b], k); (if i < |bs[b]| + 1 then Some(([n] + bs[b])[i].value) else None)
              else Get(m, k)
    {
      assert Value(h, bs, k) == Get(m, k);
      FindPrepended(bs[b], n, k);
    }
    ChainSet(h, bs, m, b, [n] + bs[b], m[n.key := n.value]);
  }

  lemma Replaced<K(!new), V>(h: K -> nat, bs: seq<seq<Node<K, V>>>, m: map<K, V>, n: Node<K, V>)
    requires Represents(h, bs, m) && n.key in m
    ensures var b := Bucket(h, |bs|, n.key);
            var i := Find(bs[b], n.key);
            i < |bs[b]| && Represents(h, bs[b := bs[b][i := n]], m[n.key := n.value])
  {
    var b := Bucket(h, |bs|, n.key);
    var i := Find(bs[b], n.key);
    assert Sound(h, bs, b);
    assert Value(h, bs, n.key) == Get(m, n.key);
    var chain := bs[b][i := n];
    forall k
      ensures Get(m[n.key := n.value], k) ==
              if Bucket(h, |bs|, k) == b then
                (if Find(chain, k) < |chain| then Some(chain[Find(chain, k)].value) else None)
              else Get(m, k)
    {
      assert Value(h, bs, k) == Get(m, k);
      var f, g := Find(bs[b], k), Find(chain, k);
      assert f < |chain| ==> chain[f].key == k;
      assert g < |chain| ==> bs[b][g].key == k;
    }
    ChainSet(h, bs, m, b, chain, m[n.key := n.value]);
  }

  lemma Removed<K(!new), V>(h: K -> nat, bs: seq<seq<Node<K, V>>>, m: map<K, V>, key: K)
    requires Represents(h, bs, m) && key in m
    ensures var b := Bucket(h, |bs|, key);
            var i := Find(bs[b], key);
            i < |bs[b]| && Represents(h, bs[b := bs[b][..i] + bs[b][i + 1..]], m - {key})
  {
    var b := Bucket(h, |bs|, key);
    var i := Find(bs[b], key);
    assert Sound(h, bs, b);
    assert Value(h, bs, key) == Get(m, key);
    var rest := bs[b][..i] + bs[b][i + 1..];
    assert forall j :: 0 <= j < |rest| ==> rest[j] == bs[b][if j < i then j else j + 1];
    FindRemoved(bs[b], i, key);
    forall k
      ensures Get(m - {key}, k) ==
              if Bucket(h, |bs|, k) == b then
                (if Find(rest, k) < |rest| then Some(rest[Find(rest, k)].value) else None)
              else Get(m, k)
    {
      assert Value(h, bs, k) == Get(m, k);
      FindRemoved(bs[b], i, k);
    }
    ChainSet(h, bs, m, b, rest, m - {key});
  }

  // All nodes, bucket by bucket.

  function Flatten<K, V>(bs: seq<seq<Node<K, V>>>): seq<Node<K, V>> {
    if bs == [] then [] else Flatten(bs[..|bs| - 1]) + bs[|bs| - 1]
  }

  /** The map a list of nodes stands for. */
  function MapOf<K, V>(ns: seq<Node<K, V>>): map<K, V> {
    if ns == [] then map[] else MapOf(ns[..|ns| - 1])[ns[|ns| - 1].key := ns[|ns| - 1].value]
  }

  ghost predicate NoKey<K, V>(ns: seq<Node<K, V>>, k: K) {
    forall i :: 0 <= i < |ns| ==> ns[i].key != k
  }

  lemma {:induction false} MapOfDistinct<K, V>(ns: seq<Node<K, V>>)
    requires Distinct(ns)
    ensures |MapOf(ns)| == |ns|
    ensures forall i :: 0 <= i < |ns| ==> ns[i].key in MapOf(ns) && MapOf(ns)[ns[i].key] == ns[i].value
    ensures forall k :: k in MapOf(ns) ==> !NoKey(ns, k)
  {
    if ns == [] {
    } else {
      MapOfDistinct(ns[..|ns| - 1]);
    }
  }

  /** The first `n` buckets: no key twice, and every node where its key belongs. */
  lemma {:induction false} FlattenDistinct<K(!new), V>(h: K -> nat, bs: seq<seq<Node<K, V>>>, m: map<K, V>, n: nat)
    requires Represents(h, bs, m) && n <= |bs|
    ensures var ns := Flatten(bs[..n]);
            && Distinct(ns)
            && (forall i :: 0 <= i < |ns| ==> Bucket(h, |bs|, ns[i].key) < n && Get(m, ns[i].key) == Some(ns[i].value))
  {
    if n == 0 {
    } else {
      FlattenDistinct(h, bs, m, n - 1);
      assert bs[..n][..n - 1] == bs[..n - 1];
      assert Sound(h, bs, n - 1);
      var chain := bs[n - 1];
      forall j | 0 <= j < |chain|
        ensures Get(m, chain[j].key) == Some(chain[j].value)
      {
        assert Value(h, bs, chain[j].key) == Get(m, chain[j].key);
      }
    }
  }

  lemma {:induction false} FlattenHas<K, V>(bs: seq<seq<Node<K, V>>>, b: nat, i: nat)
    requires b < |bs| && i < |bs[b]|
    ensures bs[b][i] in Flatten(bs)
  {
    if b == |bs| - 1 {
    } else {
      FlattenHas(bs[..|bs| - 1], b, i);
    }
  }

  lemma {:induction false} FlattenTotal<K, V>(bs: seq<seq<Node<K, V>>>)
    ensures |Flatten(bs)| == Total(bs)
  {
    if bs == [] {
    } else {
      FlattenTotal(bs[..|bs| - 1]);
    }
  }

  /** Going through all buckets meets every pair of the map exactly once, and nothing else. */
  lemma FlattenIsMap<K(!new), V>(h: K -> nat, bs: seq<seq<Node<K, V>>>, m: map<K, V>)
    requires Represents(h, bs, m)
    ensures Distinct(Flatten(bs))
    ensures forall k, v :: Node(k, v) in Flatten(bs) <==> Get(m, k) == Some(v)
    ensures MapOf(Flatten(bs)) == m
    ensures Total(bs) == |m|
  {
    var ns := Flatten(bs);
    assert bs[..|bs|] == bs;
    FlattenDistinct(h, bs, m, |bs|);
    MapOfDistinct(ns);
    FlattenTotal(bs);
    forall k | k in m
      ensures Node(k, m[k]) in ns
    {
      assert Value(h, bs, k) == Get(m, k);
      var b := Bucket(h, |bs|, k);
      FlattenHas(bs, b, Find(bs[b], k));
    }
    forall k, v
      ensures Node(k, v) in ns <==> Get(m, k) == Some(v)
    {
    }
    SameMap(ns, m);
  }

  lemma SameMap<K(!new), V>(ns: seq<Node<K, V>>, m: map<K, V>)
    requires Distinct(ns)
    requires forall k, v :: Node(k, v) in ns <==> Get(m, k) == Some(v)
    ensures MapOf(ns) == m
  {
    MapOfDistinct(ns);
    var mm := MapOf(ns);
    forall k
      ensures k in mm <==> k in m
      ensures k in m ==> mm[k] == m[k]
    {
      if k in m {
        assert Node(k, m[k]) in ns;
      } else {
        forall i | 0 <= i < |ns|
          ensures ns[i].key != k
        {
          assert ns[i] in ns;
          assert ns[i] == Node(ns[i].key, ns[i].value);
        }
        assert NoKey(ns, k);
      }
    }
  }

  // What resizing costs.

  /** `relinked` nodes were moved in `ops` operations, `since` of which came after the last
      resize, which found `last` nodes; an `initial` table has not been resized. */
  datatype Cost = Cost(ops: nat, relinked: nat, since: nat, last: nat, initial: bool)

  ghost predicate Paid(c: Cost, size: nat, n: nat) {
    && c.since <= c.ops && c.relinked <= 2 * (c.ops - c.since)
    && n <= c.last + c.since && c.last <= n + c.since
    && (if c.initial then c.last == 0
        else (c.last < size || size == MAX_SIZE) && (size == MIN_SIZE || size < 2 * c.last))
  }

  /** An operation that has been counted but not carried out yet can change the number by one. */
  ghost predicate Spare(c: Cost, n: nat) {
    n < c.last + c.since && c.last < n + c.since
  }

  function Counted(c: Cost): Cost {
    c.(ops := c.ops + 1, since := c.since + 1)
  }

  function ResizedAt(c: Cost, n: nat): Cost {
    Cost(c.ops, c.relinked + n, 0, n, false)
  }

  /** However the resizes before fared, a resize is paid for by the operations since the last
      one that succeeded: the primes are spaced closely enough. */
  lemma ResizePaid(c: Cost, size: nat, n: nat)
    requires Paid(c, size, n) && ShouldResize(size, n)
    ensures n <= 2 * c.since && Paid(ResizedAt(c, n), NewSize(n), n)
  {
    ResizedFits(n);
  }

  class FusionHash<K(==, !new), V(==)> {
    const h: K -> nat
    var nodes: array<seq<Node<K, V>>>
    var nnodes: nat
    ghost var contents: map<K, V>
    ghost var cost: Cost

    constructor (h: K -> nat, size: nat)
      ensures Valid() && contents == map[] && this.h == h && fresh(nodes)
      ensures cost == Cost(0, 0, 0, 0, true)
    {
      this.h := h;
      var n := if size < MIN_SIZE then MIN_SIZE else size;
      nodes := new seq<Node<K, V>>[n](_ => []);
      nnodes, contents, cost := 0, map[], Cost(0, 0, 0, 0, true);
      new;
      Nothing(h, nodes[..]);
    }

    /** The table is the map `contents`, and its resizes are paid for. */
    ghost predicate Valid()
      reads this, nodes
    {
      && nodes.Length >= MIN_SIZE
      && Represents(h, nodes[..], contents)
      && nnodes == Total(nodes[..]) == |contents|
      && Paid(cost, nodes.Length, nnodes)
    }

    /** `fusion_hash_lookup_node`. */
    method LookupNode(key: K) returns (b: nat, i: nat)
      requires nodes.Length > 0
      ensures b == Bucket(h, nodes.Length, key) && i == Find(nodes[b], key)
    {
      b := h(key) % nodes.Length;
      i := 0;
      while i < |nodes[b]| && nodes[b][i].key != key
        invariant i <= Find(nodes[b], key)
      {
        i := i + 1;
      }
    }

    /** What finding a node, or none, means for the map. */
    method Search(key: K) returns (b: nat, i: nat)
      requires Valid()
      ensures b == Bucket(h, nodes.Length, key) && i == Find(nodes[b], key)
      ensures (if i < |nodes[b]| then Some(nodes[b][i].value) else None) == Get(contents, key)
    {
      b, i := LookupNode(key);
      assert Value(h, nodes[..], key) == Get(contents, key);
    }

    method Lookup(key: K) returns (v: Option<V>)
      requires Valid()
      ensures v == Get(contents, key)
    {
      var b, i := Search(key);
      return if i < |nodes[b]| then Some(nodes[b][i].value) else None;
    }

    /** Whether a node was added; `noNode` and `noTable` tell which allocations fail. */
    method Insert(key: K, value: V, noNode: bool, noTable: bool) returns (status: Status)
      requires Valid()
      modifies this, nodes
      ensures Valid() && (nodes == old(nodes) || fresh(nodes))
      ensures status == if key in old(contents) then Einval else if noNode then Enomem else Ok
      ensures contents == if status == Ok then old(contents)[key := value] else old(contents)
      ensures cost.ops == old(cost).ops + 1 && cost.relinked <= 2 * cost.ops
      ensures cost.relinked == old(cost).relinked + if nodes == old(nodes) then 0 else nnodes
      ensures status == Ok && !noTable ==>
                && (nnodes < 3 * nodes.Length || nodes.Length >= MAX_SIZE)
                && (nodes.Length < 3 * nnodes || nodes.Length <= MIN_SIZE)
      ensures nodes != old(nodes) <==> (status == Ok && !noTable && ShouldResize(old(nodes.Length), nnodes))
      ensures nodes != old(nodes) ==> Smallest(PRIMES, nodes.Length, nnodes)
    {
      var b, i := Search(key);
      cost := Counted(cost);
      if i < |nodes[b]| {
        return Einval;
      }
      if noNode {
        return Enomem;
      }
      LinkAndResize(b, Node(key, value), noTable);
      return Ok;
    }

    /** A new node, and the resize that may be due then. */
    method LinkAndResize(b: nat, n: Node<K, V>, noTable: bool)
      requires Valid() && b == Bucket(h, nodes.Length, n.key) && n.key !in contents
      requires cost.since > 0 && Spare(cost, nnodes)
      modifies this, nodes
      ensures Valid() && (nodes == old(nodes) || fresh(nodes)) && contents == old(contents)[n.key := n.value]
      ensures cost.ops == old(cost).ops
      ensures cost.relinked == old(cost).relinked + if nodes == old(nodes) then 0 else nnodes
      ensures nodes != old(nodes) <==> !noTable && ShouldResize(old(nodes.Length), nnodes)
      ensures !noTable ==> !ShouldResize(nodes.Length, nnodes)
      ensures nodes != old(nodes) ==> Smallest(PRIMES, nodes.Length, nnodes)
    {
      Link(b, n);
      ResizeIfDue(noTable);
    }

    method ResizeIfDue(noTable: bool)
      requires Valid()
      modifies this`nodes, this`cost
      ensures Valid() && (nodes == old(nodes) || fresh(nodes)) && cost.ops == old(cost).ops
      ensures cost.relinked == old(cost).relinked + if nodes == old(nodes) then 0 else nnodes
      ensures nodes != old(nodes) <==> !noTable && ShouldResize(old(nodes.Length), nnodes)
      ensures !noTable ==> !ShouldResize(nodes.Length, nnodes)
      ensures nodes != old(nodes) ==> Smallest(PRIMES, nodes.Length, nnodes)
    {
      if ShouldResize(nodes.Length, nnodes) {
        var resized := Resize(noTable);
      }
    }

    /** Hangs a new node at the end of its chain. */
    method Link(b: nat, n: Node<K, V>)
      requires Valid() && nodes.Length > 0 && b == Bucket(h, nodes.Length, n.key) && n.key !in contents
      requires cost.since > 0 && Spare(cost, nnodes)
      modifies this`nnodes, this`contents, nodes
      ensures Valid() && contents == old(contents)[n.key := n.value]
    {
      Appended(h, nodes[..], contents, n);
      TotalSet(nodes[..], b, nodes[b] + [n]);
      nodes[b] := nodes[b] + [n];
      nnodes := nnodes + 1;
      contents := contents[n.key := n.value];
    }

    /** Entries can be replaced without resizing the table. */
    method Replace(key: K, value: V, noNode: bool) returns (status: Status, previous: Option<V>)
      requires Valid()
      modifies this`nnodes, this`contents, this`cost, nodes
      ensures Valid() && previous == Get(old(contents), key)
      ensures status == if key !in old(contents) && noNode then Enomem else Ok
      ensures contents == if status == Ok then old(contents)[key := value] else old(contents)
      ensures cost.ops == old(cost).ops + 1 && cost.relinked == old(cost).relinked
    {
      var b, i := Search(key);
      cost := Counted(cost);
      if i < |nodes[b]| {
        previous := Some(nodes[b][i].value);
        Replaced(h, nodes[..], contents, Node(key, value));
        TotalSet(nodes[..], b, nodes[b][i := Node(key, value)]);
        nodes[b] := nodes[b][i := Node(key, value)];
        contents := contents[key := value];
        return Ok, previous;
      }
      if noNode {
        return Enomem, None;
      }
      Link(b, Node(key, value));
      return Ok, None;
    }

    method Remove(key: K) returns (previous: Option<V>)
      requires Valid()
      modifies this`nnodes, this`contents, this`cost, nodes
      ensures Valid() && previous == Get(old(contents), key)
      ensures contents == old(contents) - {key}
      ensures cost.ops == old(cost).ops + 1 && cost.relinked == old(cost).relinked
    {
      var b, i := Search(key);
      cost := Counted(cost);
      if i == |nodes[b]| {
        return None;
      }
      previous := Some(nodes[b][i].value);
      Unlink(key, b, i);
    }

    /** Takes a node out of its chain. */
    method Unlink(key: K, b: nat, i: nat)
      requires Valid() && b == Bucket(h, nodes.Length, key) && i == Find(nodes[b], key) < |nodes[b]| && key in contents
      requires cost.since > 0 && Spare(cost, nnodes)
      modifies this`nnodes, this`contents, nodes
      ensures Valid() && contents == old(contents) - {key}
    {
      Removed(h, nodes[..], contents, key);
      var rest := nodes[b][..i] + nodes[b][i + 1..];
      TotalSet(nodes[..], b, rest);
      nodes[b] := rest;
      nnodes := nnodes - 1;
      contents := contents - {key};
    }

    /** Calls a function for the pairs until it says stop. `visited` lists its calls. */
    method Iterate(stop: (K, V) -> bool) returns (visited: seq<Node<K, V>>)
      requires Valid()
      ensures visited <= Flatten(nodes[..])
      ensures forall i :: 0 <= i < |visited| - 1 ==> !stop(visited[i].key, visited[i].value)
      ensures visited != Flatten(nodes[..]) ==>
                visited != [] && stop(visited[|visited| - 1].key, visited[|visited| - 1].value)
    {
      visited := [];
      for b := 0 to nodes.Length
        invariant visited == Flatten(nodes[..b])
        invariant forall i :: 0 <= i < |visited| ==> !stop(visited[i].key, visited[i].value)
      {
        FlattenMore(nodes[..], b);
        FlattenPrefix(nodes[..], b + 1);
        TakenChain(nodes[..], b);
        var stopped, part := IterateChain(nodes[b], stop);
        visited := visited + part;
        if stopped {
          return;
        }
      }
      assert nodes[..nodes.Length] == nodes[..];
    }

    /** The loop over one chain. */
    static method IterateChain(chain: seq<Node<K, V>>, stop: (K, V) -> bool)
      returns (stopped: bool, visited: seq<Node<K, V>>)
      ensures visited <= chain && (!stopped ==> visited == chain)
      ensures forall i :: 0 <= i < |visited| - (if stopped then 1 else 0) ==> !stop(visited[i].key, visited[i].value)
      ensures stopped ==> visited != [] && stop(visited[|visited| - 1].key, visited[|visited| - 1].value)
    {
      for i := 0 to |chain|
        invariant forall j :: 0 <= j < i ==> !stop(chain[j].key, chain[j].value)
      {
        if stop(chain[i].key, chain[i].value) {
          return true, chain[..i + 1];
        }
      }
      return false, chain;
    }

    /** Moves every node to a table of the size that suits their number. */
    method Resize(noTable: bool) returns (resized: bool)
      requires Valid() && ShouldResize(nodes.Length, nnodes)
      modifies this`nodes, this`cost
      ensures Valid() && resized == !noTable
      ensures noTable ==> nodes == old(nodes) && cost == old(cost)
      ensures !noTable ==> fresh(nodes) && !ShouldResize(nodes.Length, nnodes) && cost == ResizedAt(old(cost), nnodes)
      ensures !noTable ==> Smallest(PRIMES, nodes.Length, nnodes)
    {
      var size := NewSizeFor(nnodes);
      if noTable {
        return false;
      }
      ResizePaid(cost, nodes.Length, nnodes);
      ResizedFits(nnodes);
      nodes := Rehash(size);
      cost := ResizedAt(cost, nnodes);
      return true;
    }

    method Rehash(size: nat) returns (table: array<seq<Node<K, V>>>)
      requires Valid() && size > 0
      ensures fresh(table) && table.Length == size
      ensures Represents(h, table[..], contents) && Total(table[..]) == nnodes
    {
      table := new seq<Node<K, V>>[size](_ => []);
      Nothing(h, table[..]);
      ghost var all := nodes[..];
      FlattenIsMap(h, all, contents);
      for b := 0 to nodes.Length
        invariant table.Length == size && fresh(table)
        invariant Represents(h, table[..], MapOf(Flatten(all[..b])))
      {
        FlattenNext(all, b);
        MoveChain(nodes[b], table, Flatten(all[..b]));
      }
      TakeAll(all);
      FlattenIsMap(h, table[..], contents);
    }

    /** The nodes of one chain, each put in front of its new chain. */
    method MoveChain(chain: seq<Node<K, V>>, table: array<seq<Node<K, V>>>, ghost done: seq<Node<K, V>>)
      requires table.Length > 0 && Represents(h, table[..], MapOf(done)) && Distinct(done + chain)
      modifies table
      ensures Represents(h, table[..], MapOf(done + chain))
    {
      assert done + chain[..0] == done;
      for i := 0 to |chain|
        invariant Represents(h, table[..], MapOf(done + chain[..i]))
      {
        var n := chain[i];
        MapOfNext(done, chain, i);
        Prepended(h, table[..], MapOf(done + chain[..i]), n);
        var v := h(n.key) % table.Length;
        table[v] := [n] + table[v];
      }
      TakeAll(chain);
    }
  }

  lemma MapOfNext<K, V>(done: seq<Node<K, V>>, chain: seq<Node<K, V>>, i: nat)
    requires Distinct(done + chain) && i < |chain|
    ensures chain[i].key !in MapOf(done + chain[..i])
    ensures MapOf(done + chain[..i + 1]) == MapOf(done + chain[..i])[chain[i].key := chain[i].value]
  {
    var ns := done + chain[..i];
    assert done + chain[..i + 1] == ns + [chain[i]];
    assert (ns + [chain[i]])[..|ns|] == ns;
    assert forall j :: 0 <= j < |ns| ==> ns[j] == (done + chain)[j];
    assert chain[i] == (done + chain)[|ns|];
    MapOfDistinct(ns);
    assert NoKey(ns, chain[i].key);
  }

  lemma {:induction false} FlattenPrefix<K, V>(bs: seq<seq<Node<K, V>>>, b: nat)
    requires b <= |bs|
    ensures Flatten(bs[..b]) <= Flatten(bs)
    decreases |bs|
  {
    if b < |bs| {
      FlattenPrefix(bs[..|bs| - 1], b);
      assert bs[..|bs| - 1][..b] == bs[..b];
    } else {
      TakeAll(bs);
    }
  }

  lemma FlattenNext<K, V>(bs: seq<seq<Node<K, V>>>, b: nat)
    requires b < |bs| && Distinct(Flatten(bs))
    ensures Flatten(bs[..b + 1]) == Flatten(bs[..b]) + bs[b]
    ensures Distinct(Flatten(bs[..b]) + bs[b])
  {
    FlattenMore(bs, b);
    FlattenPrefix(bs, b + 1);
    DistinctPrefix(Flatten(bs[..b + 1]), Flatten(bs));
  }

  lemma TakenChain<K, V>(bs: seq<seq<Node<K, V>>>, b: nat)
    requires b < |bs|
    ensures bs[..b + 1][..b] == bs[..b] && bs[..b + 1][b] == bs[b]
  {
  }

  lemma FlattenMore<K, V>(bs: seq<seq<Node<K, V>>>, b: nat)
    requires b < |bs|
    ensures Flatten(bs[..b + 1]) == Flatten(bs[..b]) + bs[b]
  {
    TakeShorter(bs, b);
  }

  lemma DistinctPrefix<K, V>(a: seq<Node<K, V>>, ns: seq<Node<K, V>>)
    requires a <= ns && Distinct(ns)
    ensures Distinct(a)
  {
  }

  lemma {:induction false} Nothing<K(!new), V>(h: K -> nat, bs: seq<seq<Node<K, V>>>)
    requires |bs| > 0 && forall b :: 0 <= b < |bs| ==> bs[b] == []
    ensures Represents(h, bs, map[]) && Total(bs) == 0
  {
    EmptyTotal(bs);
  }

  lemma {:induction false} EmptyTotal<K, V>(bs: seq<seq<Node<K, V>>>)
    requires forall b :: 0 <= b < |bs| ==> bs[b] == []
    ensures Total(bs) == 0
  {
    if bs == [] {
    } else {
      EmptyTotal(bs[..|bs| - 1]);
    }
  }
}