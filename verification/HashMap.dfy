/**
 Hash domains (pkg/placement/hash-domain.go) and the eight-bucket hash map over them
 (pkg/placement/map-hash.go). Keys are compared by the domain's own equality.
 */
module HashMaps {
  import opened Changes

  const WORD: int := 0x1_0000_0000_0000_0000

  /** An unsigned 64-bit word; sums and products wrap. */
  type HashValue = x: int | 0 <= x < WORD

  function Wrap(x: int): HashValue {
    x % WORD
  }

  datatype HashDomain<!T> = HashDomain(equal: (T, T) -> bool, hash: T -> HashValue)

  /** Equality is an equivalence and equal things hash alike. */
  ghost predicate Lawful<T(!new)>(d: HashDomain<T>) {
    && (forall x :: d.equal(x, x))
    && (forall x, y :: d.equal(x, y) ==> d.equal(y, x))
    && (forall x, y, z :: d.equal(x, y) && d.equal(y, z) ==> d.equal(x, z))
    && (forall x, y :: d.equal(x, y) ==> d.hash(x) == d.hash(y))
  }

  /** The domain's equality is identity. */
  ghost predicate Exact<T(!new)>(d: HashDomain<T>) {
    forall x, y :: d.equal(x, y) <==> x == y
  }

  lemma ExactIsLawful<T(!new)>(d: HashDomain<T>)
    requires Exact(d)
    ensures Lawful(d)
  {
  }

  function PairHashDomain<A, B>(first: HashDomain<A>, second: HashDomain<B>): HashDomain<(A, B)> {
    HashDomain(
      (l: (A, B), r: (A, B)) => first.equal(l.0, r.0) && second.equal(l.1, r.1),
      (t: (A, B)) => Wrap(first.hash(t.0) * 257 + second.hash(t.1)))
  }

  function TripleHashDomain<A, B, C>(first: HashDomain<A>, second: HashDomain<B>,
                                     third: HashDomain<C>): HashDomain<(A, B, C)> {
    HashDomain(
      (l: (A, B, C), r: (A, B, C)) => first.equal(l.0, r.0) && second.equal(l.1, r.1) && third.equal(l.2, r.2),
      (t: (A, B, C)) => Wrap(first.hash(t.0) * 65539 + second.hash(t.1) * 257 + third.hash(t.2)))
  }

  function TransformHashDomain<S, T>(transform: S -> T, d: HashDomain<T>): HashDomain<S> {
    HashDomain((l: S, r: S) => d.equal(transform(l), transform(r)), (x: S) => d.hash(transform(x)))
  }

  predicate SliceEqual<T>(d: HashDomain<T>, l: seq<T>, r: seq<T>) {
    |l| == |r| && forall i | 0 <= i < |l| :: d.equal(l[i], r[i])
  }

  function SliceHash<T>(d: HashDomain<T>, s: seq<T>): HashValue {
    if s == [] then 0 else Wrap(SliceHash(d, s[..|s| - 1]) * 263 + d.hash(s[|s| - 1]))
  }

  function SliceHashDomain<T>(d: HashDomain<T>): HashDomain<seq<T>> {
    HashDomain((l: seq<T>, r: seq<T>) => SliceEqual(d, l, r), (s: seq<T>) => SliceHash(d, s))
  }

  /** The loop that the program runs; it stops at the first difference. */
  method SliceEqualLoop<T>(d: HashDomain<T>, left: seq<T>, right: seq<T>) returns (r: bool)
    ensures r <==> SliceEqual(d, left, right)
  {
    if |left| != |right| {
      return false;
    }
    for i := 0 to |left|
      invariant forall j | 0 <= j < i :: d.equal(left[j], right[j])
    {
      if !d.equal(left[i], right[i]) {
        return false;
      }
    }
    return true;
  }

  method SliceHashLoop<T>(d: HashDomain<T>, s: seq<T>) returns (ans: HashValue)
    ensures ans == SliceHash(d, s)
  {
    ans := 0;
    for i := 0 to |s|
      invariant ans == SliceHash(d, s[..i])
    {
      assert s[..i + 1][..i] == s[..i];
      ans := Wrap(ans * 263 + d.hash(s[i]));
    }
    assert s[..|s|] == s;
  }

  lemma PairsAreLawful<A(!new), B(!new)>(a: HashDomain<A>, b: HashDomain<B>)
    requires Lawful(a) && Lawful(b)
    ensures Lawful(PairHashDomain(a, b))
    ensures Exact(a) && Exact(b) ==> Exact(PairHashDomain(a, b))
  {
    var d := PairHashDomain(a, b);
    assert forall x, y :: d.equal(x, y) <==> a.equal(x.0, y.0) && b.equal(x.1, y.1);
    assert forall x: (A, B), y: (A, B) :: x == y <==> x.0 == y.0 && x.1 == y.1;
  }

  lemma TriplesAreLawful<A(!new), B(!new), C(!new)>(a: HashDomain<A>, b: HashDomain<B>, c: HashDomain<C>)
    requires Lawful(a) && Lawful(b) && Lawful(c)
    ensures Lawful(TripleHashDomain(a, b, c))
    ensures Exact(a) && Exact(b) && Exact(c) ==> Exact(TripleHashDomain(a, b, c))
  {
    var d := TripleHashDomain(a, b, c);
    assert forall x, y :: d.equal(x, y) <==> a.equal(x.0, y.0) && b.equal(x.1, y.1) && c.equal(x.2, y.2);
    assert forall x: (A, B, C), y: (A, B, C) :: x == y <==> x.0 == y.0 && x.1 == y.1 && x.2 == y.2;
  }

  lemma TransformsAreLawful<S(!new), T(!new)>(f: S -> T, d: HashDomain<T>)
    requires Lawful(d)
    ensures Lawful(TransformHashDomain(f, d))
    ensures Exact(d) && (forall x, y | f(x) == f(y) :: x == y) ==> Exact(TransformHashDomain(f, d))
  {
  }

  lemma {:induction false} EqualSlicesHashAlike<T(!new)>(d: HashDomain<T>, l: seq<T>, r: seq<T>)
    requires Lawful(d) && SliceEqual(d, l, r)
    ensures SliceHash(d, l) == SliceHash(d, r)
  {
    if l != [] {
      EqualSlicesHashAlike(d, l[..|l| - 1], r[..|r| - 1]);
    }
  }

  lemma SlicesAreLawful<T(!new)>(d: HashDomain<T>)
    requires Lawful(d)
    ensures Lawful(SliceHashDomain(d))
    ensures Exact(d) ==> Exact(SliceHashDomain(d))
  {
    forall l, r | SliceEqual(d, l, r) ensures SliceHash(d, l) == SliceHash(d, r) {
      EqualSlicesHashAlike(d, l, r);
    }
    if Exact(d) {
      forall l, r | SliceEqual(d, l, r) ensures l == r {
        assert forall i | 0 <= i < |l| :: l[i] == r[i];
      }
    }
  }

  // ----- The buckets -----

  const NUM_BUCKETS: nat := 8

  type Bucket<K, V> = seq<(K, V)>
  type Buckets<K, V> = bs: seq<Bucket<K, V>> | |bs| == NUM_BUCKETS witness seq(NUM_BUCKETS, _ => [])

  function SlotOf<K>(d: HashDomain<K>, k: K): nat {
    d.hash(k) % NUM_BUCKETS
  }

  /** The position of the first equal key, or the length of the bucket. */
  function Position<K, V>(d: HashDomain<K>, b: Bucket<K, V>, k: K): (i: nat)
    ensures i <= |b|
    ensures i < |b| ==> d.equal(k, b[i].0)
    ensures forall j | 0 <= j < i :: !d.equal(k, b[j].0)
  {
    if b == [] then 0
    else if d.equal(k, b[0].0) then 0
    else 1 + Position(d, b[1..], k)
  }

  function Lookup<K, V>(d: HashDomain<K>, bs: Buckets<K, V>, k: K): Option<V> {
    var b := bs[SlotOf(d, k)];
    var i := Position(d, b, k);
    if i < |b| then Some(b[i].1) else None
  }

  function PutBuckets<K, V>(d: HashDomain<K>, bs: Buckets<K, V>, k: K, v: V): Buckets<K, V> {
    var b := bs[SlotOf(d, k)];
    var i := Position(d, b, k);
    bs[SlotOf(d, k) := if i < |b| then b[i := (b[i].0, v)] else b + [(k, v)]]
  }

  function DeleteBuckets<K, V>(d: HashDomain<K>, bs: Buckets<K, V>, k: K): Buckets<K, V> {
    var b := bs[SlotOf(d, k)];
    var i := Position(d, b, k);
    if i < |b| then bs[SlotOf(d, k) := b[..i] + b[i + 1..]] else bs
  }

  ghost predicate Different<K, V>(d: HashDomain<K>, b: Bucket<K, V>) {
    forall i, j | 0 <= i < |b| && 0 <= j < |b| && i != j :: !d.equal(b[i].0, b[j].0)
  }

  ghost predicate Slotted<K, V>(d: HashDomain<K>, b: Bucket<K, V>, slot: nat) {
    forall i | 0 <= i < |b| :: SlotOf(d, b[i].0) == slot
  }

  ghost predicate Sound<K, V>(d: HashDomain<K>, bs: Buckets<K, V>) {
    forall s | 0 <= s < NUM_BUCKETS :: Different(d, bs[s]) && Slotted(d, bs[s], s)
  }

  /** In a bucket without equal keys, any equal key is the one that is found. */
  lemma PositionIs<K(!new), V>(d: HashDomain<K>, b: Bucket<K, V>, k: K, i: nat)
    requires Lawful(d) && Different(d, b)
    requires i < |b| && d.equal(k, b[i].0)
    ensures Position(d, b, k) == i
  {
    var p := Position(d, b, k);
    assert p <= i;
    assert d.equal(b[p].0, k);
    assert d.equal(b[p].0, b[i].0);
  }

  lemma PutMeans<K(!new), V>(d: HashDomain<K>, bs: Buckets<K, V>, k: K, v: V, j: K)
    requires Lawful(d) && Sound(d, bs)
    ensures Sound(d, PutBuckets(d, bs, k, v))
    ensures Lookup(d, PutBuckets(d, bs, k, v), j) == if d.equal(k, j) then Some(v) else Lookup(d, bs, j)
  {
    var slot := SlotOf(d, k);
    var b, b' := bs[slot], PutBuckets(d, bs, k, v)[slot];
    var i := Position(d, b, k);
    assert Different(d, b) && Slotted(d, b, slot);
    assert Different(d, b') && Slotted(d, b', slot);
    assert Sound(d, PutBuckets(d, bs, k, v));
    if SlotOf(d, j) == slot {
      if d.equal(k, j) {
        assert d.equal(j, b'[i].0);
        PositionIs(d, b', j, i);
      } else {
        var p := Position(d, b, j);
        if p < |b| {
          assert p == i ==> d.equal(k, j);
          PositionIs(d, b', j, p);
        } else {
          assert d.equal(b'[i].0, k);
          assert forall q | 0 <= q < |b'| :: !d.equal(j, b'[q].0);
        }
      }
    }
  }

  /** Taking one entry out of a bucket leaves the others findable. */
  lemma Without<K(!new), V>(d: HashDomain<K>, b: Bucket<K, V>, i: nat, j: K)
    requires Lawful(d) && Different(d, b) && i < |b|
    ensures var b' := b[..i] + b[i + 1..];
            && Different(d, b')
            && (forall slot | Slotted(d, b, slot) :: Slotted(d, b', slot))
            && (d.equal(j, b[i].0) ==> Position(d, b', j) == |b'|)
            && (!d.equal(j, b[i].0) ==>
                  var p, p' := Position(d, b, j), Position(d, b', j);
                  if p < |b| then p' < |b'| && b'[p'] == b[p] else p' == |b'|)
  {
    var b' := b[..i] + b[i + 1..];
    forall p | 0 <= p < |b'| ensures b'[p] == if p < i then b[p] else b[p + 1] {}
    var p := Position(d, b, j);
    assert Different(d, b');
    if d.equal(j, b[i].0) {
      forall q | 0 <= q < |b'|
        ensures !d.equal(j, b'[q].0)
      {
        assert !d.equal(b[i].0, b[if q < i then q else q + 1].0);
      }
    } else if p < |b| {
      PositionIs(d, b', j, if p < i then p else p - 1);
    }
  }

  lemma DeleteMeans<K(!new), V>(d: HashDomain<K>, bs: Buckets<K, V>, k: K, j: K)
    requires Lawful(d) && Sound(d, bs)
    ensures Sound(d, DeleteBuckets(d, bs, k))
    ensures Lookup(d, DeleteBuckets(d, bs, k), j) == if d.equal(k, j) then None else Lookup(d, bs, j)
  {
    var slot := SlotOf(d, k);
    var b := bs[slot];
    var i := Position(d, b, k);
    assert Different(d, b) && Slotted(d, b, slot);
    if i < |b| {
      Without(d, b, i, j);
      assert d.equal(j, b[i].0) <==> d.equal(k, j);
      DeletedSound(d, bs, k);
    } else if d.equal(k, j) {
      forall q | 0 <= q < |b|
        ensures !d.equal(j, b[q].0)
      {
        assert !d.equal(k, b[q].0);
      }
    }
  }

  lemma DeletedSound<K(!new), V>(d: HashDomain<K>, bs: Buckets<K, V>, k: K)
    requires Lawful(d) && Sound(d, bs)
    ensures Sound(d, DeleteBuckets(d, bs, k))
  {
    var slot := SlotOf(d, k);
    var b := bs[slot];
    var i := Position(d, b, k);
    assert Different(d, b) && Slotted(d, b, slot);
    if i < |b| {
      Without(d, b, i, k);
    }
  }

  /** The value of the latest put of an equal key, unless a delete came after it. */
  function Latest<K, V>(d: HashDomain<K>, ops: seq<MapChange<K, V>>, k: K): Option<V> {
    if ops == [] then None else
      var last := ops[|ops| - 1];
      if !d.equal(last.key, k) then Latest(d, ops[..|ops| - 1], k)
      else if last.Put? then Some(last.val) else None
  }

  function RunBuckets<K, V>(d: HashDomain<K>, ops: seq<MapChange<K, V>>): Buckets<K, V> {
    if ops == [] then seq(NUM_BUCKETS, _ => []) else
      match ops[|ops| - 1]
      case Put(k, v) => PutBuckets(d, RunBuckets(d, ops[..|ops| - 1]), k, v)
      case Delete(k) => DeleteBuckets(d, RunBuckets(d, ops[..|ops| - 1]), k)
  }

  /** Across any run of puts and deletes, the buckets refine the map modulo the domain's equality. */
  lemma {:induction false} RunRefinesMap<K(!new), V>(d: HashDomain<K>, ops: seq<MapChange<K, V>>, k: K)
    requires Lawful(d)
    ensures Sound(d, RunBuckets(d, ops))
    ensures Lookup(d, RunBuckets(d, ops), k) == Latest(d, ops, k)
  {
    if ops != [] {
      var init := ops[..|ops| - 1];
      RunRefinesMap(d, init, k);
      match ops[|ops| - 1]
      case Put(k', v) => PutMeans(d, RunBuckets(d, init), k', v, k);
      case Delete(k') => DeleteMeans(d, RunBuckets(d, init), k', k);
    }
  }

  function Chained<K, V>(bs: seq<Bucket<K, V>>): Bucket<K, V> {
    if bs == [] then [] else Chained(bs[..|bs| - 1]) + bs[|bs| - 1]
  }

  /** Chaining the buckets lists every class of equal keys once, with the value that a lookup finds. */
  lemma {:induction false} ChainedPrefix<K(!new), V>(d: HashDomain<K>, bs: Buckets<K, V>, n: nat)
    requires Lawful(d) && Sound(d, bs) && n <= NUM_BUCKETS
    ensures forall p | p in Chained(bs[..n]) :: SlotOf(d, p.0) < n && p in bs[SlotOf(d, p.0)]
    ensures forall s, p | 0 <= s < n && p in bs[s] :: p in Chained(bs[..n])
    ensures Different(d, Chained(bs[..n]))
  {
    if n > 0 {
      ChainedPrefix(d, bs, n - 1);
      assert bs[..n][..n - 1] == bs[..n - 1];
      assert Different(d, bs[n - 1]) && Slotted(d, bs[n - 1], n - 1);
      var front, back := Chained(bs[..n - 1]), bs[n - 1];
      assert Chained(bs[..n]) == front + back;
      forall i, j | 0 <= i < |front| && 0 <= j < |back|
        ensures !d.equal(front[i].0, back[j].0) && !d.equal(back[j].0, front[i].0)
      {
        assert front[i] in front;
        assert SlotOf(d, front[i].0) != SlotOf(d, back[j].0);
      }
      var whole := front + back;
      forall i, j | 0 <= i < |whole| && 0 <= j < |whole| && i != j
        ensures !d.equal(whole[i].0, whole[j].0)
      {
        var m := |front|;
        if i < m && j < m {
          assert whole[i] == front[i] && whole[j] == front[j];
        } else if i >= m && j >= m {
          assert whole[i] == back[i - m] && whole[j] == back[j - m];
        } else if i < m {
          assert whole[i] == front[i] && whole[j] == back[j - m];
        } else {
          assert whole[i] == back[i - m] && whole[j] == front[j];
        }
      }
    }
  }

  lemma ChainedLists<K(!new), V>(d: HashDomain<K>, bs: Buckets<K, V>, k: K)
    requires Lawful(d) && Sound(d, bs)
    ensures Lookup(d, bs, k).Some? <==> exists p :: p in Chained(bs) && d.equal(k, p.0)
    ensures forall p | p in Chained(bs) && d.equal(k, p.0) :: Lookup(d, bs, k) == Some(p.1)
  {
    ChainedPrefix(d, bs, NUM_BUCKETS);
    assert bs[..NUM_BUCKETS] == bs;
    var b := bs[SlotOf(d, k)];
    var i := Position(d, b, k);
    assert i < |b| ==> b[i] in Chained(bs);
    forall p | p in Chained(bs) && d.equal(k, p.0)
      ensures Lookup(d, bs, k) == Some(p.1)
    {
      assert SlotOf(d, p.0) == SlotOf(d, k);
      assert p in b;
      var q :| 0 <= q < |b| && b[q] == p;
      PositionIs(d, b, k, q);
    }
  }

  function KeysOf<K, V>(b: Bucket<K, V>): seq<K> {
    seq(|b|, i requires 0 <= i < |b| => b[i].0)
  }

  ghost predicate Among<K>(d: HashDomain<K>, k: K, keys: seq<K>) {
    exists i :: 0 <= i < |keys| && d.equal(k, keys[i])
  }

  ghost predicate PairwiseDifferent<K>(d: HashDomain<K>, keys: seq<K>) {
    forall i, j | 0 <= i < j < |keys| :: !d.equal(keys[i], keys[j])
  }

  /** The keys listed are pairwise different, and the keys that have a value are those equal to one of them. */
  ghost predicate Counts<K(!new), V>(d: HashDomain<K>, bs: Buckets<K, V>, keys: seq<K>) {
    PairwiseDifferent(d, keys) && forall k :: Lookup(d, bs, k).Some? <==> Among(d, k, keys)
  }

  lemma ChainedCounts<K(!new), V>(d: HashDomain<K>, bs: Buckets<K, V>)
    requires Lawful(d) && Sound(d, bs)
    ensures Counts(d, bs, KeysOf(Chained(bs)))
  {
    ChainedPrefix(d, bs, NUM_BUCKETS);
    assert bs[..NUM_BUCKETS] == bs;
    var b, keys := Chained(bs), KeysOf(Chained(bs));
    forall k
      ensures Lookup(d, bs, k).Some? <==> Among(d, k, keys)
    {
      ChainedLists(d, bs, k);
      if i :| 0 <= i < |keys| && d.equal(k, keys[i]) {
        assert b[i] in b;
      }
      if p :| p in b && d.equal(k, p.0) {
        var i :| 0 <= i < |b| && b[i] == p;
        assert d.equal(k, keys[i]);
      }
    }
  }

  /** If different keys all have an equal in a list, then there are no more of them than the list is long. */
  lemma {:induction false} Embeds<K(!new)>(d: HashDomain<K>, xs: seq<K>, ys: seq<K>)
    requires Lawful(d) && PairwiseDifferent(d, xs)
    requires forall x | x in xs :: Among(d, x, ys)
    ensures |xs| <= |ys|
    decreases |xs|
  {
    if xs != [] {
      var init, last := xs[..|xs| - 1], xs[|xs| - 1];
      assert last in xs;
      var n :| 0 <= n < |ys| && d.equal(last, ys[n]);
      var rest := ys[..n] + ys[n + 1..];
      forall x | x in init
        ensures Among(d, x, rest)
      {
        assert x in xs;
        var j :| 0 <= j < |ys| && d.equal(x, ys[j]);
        assert j != n;
        assert rest[if j < n then j else j - 1] == ys[j];
      }
      Embeds(d, init, rest);
    }
  }

  lemma SameCount<K(!new), V>(d: HashDomain<K>, bs: Buckets<K, V>, xs: seq<K>, ys: seq<K>)
    requires Lawful(d) && Counts(d, bs, xs) && Counts(d, bs, ys)
    ensures |xs| == |ys|
  {
    assert forall i | 0 <= i < |xs| :: d.equal(xs[i], xs[i]);
    assert forall x | x in xs :: Among(d, x, xs) && Lookup(d, bs, x).Some?;
    assert forall i | 0 <= i < |ys| :: d.equal(ys[i], ys[i]);
    assert forall y | y in ys :: Among(d, y, ys) && Lookup(d, bs, y).Some?;
    hide Among, PairwiseDifferent, Lawful;
    Embeds(d, xs, ys);
    Embeds(d, ys, xs);
  }

  /**
   Where the domain's equality is identity, any run of puts and deletes leaves the hash map with the
   lookups of an ordinary map that had the same run. The joins use such maps.
   */
  lemma {:induction false} RunIsMap<K(!new), V>(d: HashDomain<K>, ops: seq<MapChange<K, V>>, k: K)
    requires Exact(d)
    ensures var m := AfterAll(map[], ops);
            Lookup(d, RunBuckets(d, ops), k) == if k in m then Some(m[k]) else None
  {
    RunRefinesMap(d, ops, k);
    if ops != [] {
      RunIsMap(d, ops[..|ops| - 1], k);
      RunRefinesMap(d, ops[..|ops| - 1], k);
    }
  }

  class HashMap<K(!new), V> {
    const domain: HashDomain<K>
    const buckets: array<Bucket<K, V>>

    ghost predicate Valid()
      reads this, buckets
    {
      Lawful(domain) && buckets.Length == NUM_BUCKETS && Sound(domain, buckets[..])
    }

    constructor (domain: HashDomain<K>)
      requires Lawful(domain)
      ensures Valid() && fresh(buckets) && this.domain == domain
      ensures forall k :: Lookup(domain, buckets[..], k) == None
    {
      this.domain := domain;
      buckets := new Bucket<K, V>[NUM_BUCKETS](_ => []);
      new;
      assert forall i | 0 <= i < NUM_BUCKETS :: buckets[..][i] == [];
    }

    method Seek(k: K) returns (bucketNum: nat, index: nat, have: bool)
      requires Valid()
      ensures bucketNum == SlotOf(domain, k)
      ensures index == Position(domain, buckets[..][bucketNum], k)
      ensures have <==> index < |buckets[bucketNum]|
    {
      bucketNum := domain.hash(k) % NUM_BUCKETS;
      var bucket := buckets[bucketNum];
      for i := 0 to |bucket|
        invariant forall j | 0 <= j < i :: !domain.equal(k, bucket[j].0)
      {
        if domain.equal(k, bucket[i].0) {
          return bucketNum, i, true;
        }
      }
      return bucketNum, |bucket|, false;
    }

    method Get(k: K) returns (r: Option<V>)
      requires Valid()
      ensures r == Lookup(domain, buckets[..], k)
    {
      var n, i, have := Seek(k);
      r := if have then Some(buckets[n][i].1) else None;
    }

    /** The observer is told the key of the call, although the key that was first put stays in the bucket. */
    method Put(k: K, v: V) returns (event: MapEvent<K, V>)
      requires Valid()
      modifies buckets
      ensures Valid()
      ensures buckets[..] == PutBuckets(domain, old(buckets[..]), k, v)
      ensures forall j :: Lookup(domain, buckets[..], j) ==
                if domain.equal(k, j) then Some(v) else old(Lookup(domain, buckets[..], j))
      ensures event == match old(Lookup(domain, buckets[..], k))
                       case Some(was) => Update(k, was, v)
                       case None => Create(k, v)
    {
      forall j { PutMeans(domain, buckets[..], k, v, j); }
      var n, i, have := Seek(k);
      if have {
        event := Update(k, buckets[n][i].1, v);
        buckets[n] := buckets[n][i := (buckets[n][i].0, v)];
      } else {
        event := Create(k, v);
        buckets[n] := buckets[n] + [(k, v)];
      }
    }

    method Delete(k: K) returns (event: Option<MapEvent<K, V>>)
      requires Valid()
      modifies buckets
      ensures Valid()
      ensures buckets[..] == DeleteBuckets(domain, old(buckets[..]), k)
      ensures forall j :: Lookup(domain, buckets[..], j) ==
                if domain.equal(k, j) then None else old(Lookup(domain, buckets[..], j))
      ensures event == match old(Lookup(domain, buckets[..], k))
                       case Some(was) => Some(DeleteWithFinal(k, was))
                       case None => None
    {
      forall j { DeleteMeans(domain, buckets[..], k, j); }
      var n, i, have := Seek(k);
      if !have {
        return None;
      }
      event := Some(DeleteWithFinal(k, buckets[n][i].1));
      buckets[n] := buckets[n][..i] + buckets[n][i + 1..];
    }

    method Visit() returns (pairs: seq<(K, V)>)
      requires Valid()
      ensures Different(domain, pairs)
      ensures forall k :: Lookup(domain, buckets[..], k).Some? <==> exists p :: p in pairs && domain.equal(k, p.0)
      ensures forall k, p | p in pairs && domain.equal(k, p.0) :: Lookup(domain, buckets[..], k) == Some(p.1)
    {
      pairs := [];
      for n := 0 to NUM_BUCKETS
        invariant pairs == Chained(buckets[..][..n])
      {
        assert buckets[..][..n + 1][..n] == buckets[..][..n];
        pairs := pairs + buckets[n];
      }
      assert buckets[..][..NUM_BUCKETS] == buckets[..];
      ChainedPrefix(domain, buckets[..], NUM_BUCKETS);
      forall k { ChainedLists(domain, buckets[..], k); }
    }

    /** The number of keys that the map has, equal ones counted once. */
    method Len() returns (ans: nat)
      requires Valid()
      ensures forall keys | Counts(domain, buckets[..], keys) :: ans == |keys|
      ensures exists keys :: Counts(domain, buckets[..], keys) && |keys| == ans
    {
      ans := 0;
      for n := 0 to NUM_BUCKETS
        invariant ans == |Chained(buckets[..][..n])|
      {
        assert buckets[..][..n + 1][..n] == buckets[..][..n];
        ans := ans + |buckets[n]|;
      }
      assert buckets[..][..NUM_BUCKETS] == buckets[..];
      ChainedCounts(domain, buckets[..]);
      forall keys | Counts(domain, buckets[..], keys)
        ensures ans == |keys|
      {
        SameCount(domain, buckets[..], keys, KeysOf(Chained(buckets[..])));
      }
    }
  }
}
