/**
 Change streams of maps and sets, and the arbitrary order in which a Go map is visited.

 The program connects its relational stages by callbacks: every stage hands each change to a
 receiver, synchronously and in order, and no receiver talks back. Here a stage returns the
 changes it emits as a sequence, and the next stage consumes that sequence in order.
 */
module Changes {

  datatype Option<+T> = None | Some(value: T)

  /** What a receiver of key/value pairs is told. */
  datatype MapChange<+K, +V> = Put(key: K, val: V) | Delete(key: K)

  /** What a stateful map tells its observer: the old value comes along. */
  datatype MapEvent<+K, +V> =
    | Create(key: K, val: V)
    | Update(key: K, oldVal: V, newVal: V)
    | DeleteWithFinal(key: K, val: V)

  /** What a receiver of set members is told. */
  datatype SetChange<+T> = Add(elt: T) | Remove(elt: T)

  function After<K, V>(m: map<K, V>, c: MapChange<K, V>): map<K, V> {
    match c
    case Put(k, v) => m[k := v]
    case Delete(k) => m - {k}
  }

  function AfterAll<K, V>(m: map<K, V>, cs: seq<MapChange<K, V>>): map<K, V> {
    if cs == [] then m else After(AfterAll(m, cs[..|cs| - 1]), cs[|cs| - 1])
  }

  lemma AfterNone<K, V>(m: map<K, V>)
    ensures AfterAll(m, []) == m
  {
  }

  lemma AfterAllSnoc<K, V>(m: map<K, V>, cs: seq<MapChange<K, V>>, c: MapChange<K, V>)
    ensures AfterAll(m, cs + [c]) == After(AfterAll(m, cs), c)
  {
    assert (cs + [c])[..|cs|] == cs;
  }

  /** A stream of puts that agree with each other, in whatever order they come. */
  lemma {:induction false} AllPuts<K, V>(m: map<K, V>, cs: seq<MapChange<K, V>>)
    requires forall c | c in cs :: c.Put?
    requires forall c, d | c in cs && d in cs && c.key == d.key :: c == d
    ensures forall k :: k in AfterAll(m, cs) <==> k in m || exists c :: c in cs && c.key == k
    ensures forall c | c in cs :: AfterAll(m, cs)[c.key] == c.val
    ensures forall k | k in m && k in AfterAll(m, cs) && !(exists c :: c in cs && c.key == k) ::
              AfterAll(m, cs)[k] == m[k]
  {
    if cs != [] {
      var init, last := cs[..|cs| - 1], cs[|cs| - 1];
      assert cs == init + [last];
      assert forall c :: c in cs <==> c in init || c == last;
      AllPuts(m, init);
    }
  }

  lemma {:induction false} AllDeletes<K, V>(m: map<K, V>, cs: seq<MapChange<K, V>>)
    requires forall c | c in cs :: c.Delete?
    ensures forall k :: k in AfterAll(m, cs) <==> k in m && Delete(k) !in cs
    ensures forall k | k in AfterAll(m, cs) :: AfterAll(m, cs)[k] == m[k]
  {
    if cs != [] {
      var init, last := cs[..|cs| - 1], cs[|cs| - 1];
      assert cs == init + [last];
      assert forall c :: c in cs <==> c in init || c == last;
      AllDeletes(m, init);
      assert last in cs && last == Delete(last.key);
      assert AfterAll(m, cs) == AfterAll(m, init) - {last.key};
    }
  }

  /** An event tells the truth about the map it changes. */
  ghost predicate Truthful<K, V>(m: map<K, V>, e: MapEvent<K, V>) {
    match e
    case Create(k, _) => k !in m
    case Update(k, prev, _) => k in m && m[k] == prev
    case DeleteWithFinal(k, final) => k in m && m[k] == final
  }

  function Replay<K, V>(m: map<K, V>, e: MapEvent<K, V>): map<K, V> {
    match e
    case Create(k, v) => m[k := v]
    case Update(k, _, v) => m[k := v]
    case DeleteWithFinal(k, _) => m - {k}
  }

  function ReplayAll<K, V>(m: map<K, V>, es: seq<MapEvent<K, V>>): map<K, V> {
    if es == [] then m else Replay(ReplayAll(m, es[..|es| - 1]), es[|es| - 1])
  }

  /** Every event in the stream tells the truth about the map that the ones before it lead to. */
  ghost predicate AllTruthful<K, V>(m: map<K, V>, es: seq<MapEvent<K, V>>) {
    es != [] ==> AllTruthful(m, es[..|es| - 1]) && Truthful(ReplayAll(m, es[..|es| - 1]), es[|es| - 1])
  }

  /** What that means for each event. */
  lemma {:induction false} TruthfulAlong<K, V>(m: map<K, V>, es: seq<MapEvent<K, V>>)
    requires AllTruthful(m, es)
    ensures forall i | 0 <= i < |es| ::
              var now := ReplayAll(m, es[..i]);
              match es[i]
              case Create(k, _) => k !in now
              case Update(k, prev, _) => k in now && now[k] == prev
              case DeleteWithFinal(k, final) => k in now && now[k] == final
  {
    if es != [] {
      var init := es[..|es| - 1];
      TruthfulAlong(m, init);
      assert forall i | 0 <= i < |init| :: es[..i] == init[..i];
    }
  }

  lemma ReplayAllSnoc<K, V>(m: map<K, V>, es: seq<MapEvent<K, V>>, e: MapEvent<K, V>)
    ensures ReplayAll(m, es + [e]) == Replay(ReplayAll(m, es), e)
    ensures AllTruthful(m, es) && Truthful(ReplayAll(m, es), e) ==> AllTruthful(m, es + [e])
  {
    assert (es + [e])[..|es|] == es;
  }

  function Changed<T>(s: set<T>, c: SetChange<T>): set<T> {
    match c
    case Add(x) => s + {x}
    case Remove(x) => s - {x}
  }

  function ChangedAll<T>(s: set<T>, cs: seq<SetChange<T>>): set<T> {
    if cs == [] then s else Changed(ChangedAll(s, cs[..|cs| - 1]), cs[|cs| - 1])
  }

  /** Every change in the stream really changes the set it reaches. */
  ghost predicate Strict<T>(s: set<T>, cs: seq<SetChange<T>>) {
    cs != [] ==>
      && Strict(s, cs[..|cs| - 1])
      && (cs[|cs| - 1].Add? <==> cs[|cs| - 1].elt !in ChangedAll(s, cs[..|cs| - 1]))
  }

  /** What that means for each change. */
  lemma {:induction false} StrictAlong<T>(s: set<T>, cs: seq<SetChange<T>>)
    requires Strict(s, cs)
    ensures forall i | 0 <= i < |cs| ::
              if cs[i].Add? then cs[i].elt !in ChangedAll(s, cs[..i]) else cs[i].elt in ChangedAll(s, cs[..i])
  {
    if cs != [] {
      var init := cs[..|cs| - 1];
      StrictAlong(s, init);
      assert forall i | 0 <= i < |init| :: cs[..i] == init[..i];
    }
  }

  lemma ChangedNone<T>(s: set<T>)
    ensures ChangedAll(s, []) == s && Strict(s, [])
  {
  }

  lemma ChangedAllSnoc<T>(s: set<T>, cs: seq<SetChange<T>>, c: SetChange<T>)
    ensures ChangedAll(s, cs + [c]) == Changed(ChangedAll(s, cs), c)
    ensures Strict(s, cs) && (c.Add? <==> c.elt !in ChangedAll(s, cs)) ==> Strict(s, cs + [c])
  {
    assert (cs + [c])[..|cs|] == cs;
  }

  /** A stream of distinct new members, or of distinct present members leaving. */
  lemma {:induction false} AllOneWay<T>(s: set<T>, cs: seq<SetChange<T>>)
    requires Distinct(cs)
    requires (forall c | c in cs :: c.Add? && c.elt !in s) || (forall c | c in cs :: c.Remove? && c.elt in s)
    ensures Strict(s, cs)
    ensures forall x :: x in ChangedAll(s, cs) <==> (x in s || Add(x) in cs) && Remove(x) !in cs
  {
    if cs != [] {
      var init, last := cs[..|cs| - 1], cs[|cs| - 1];
      assert cs == init + [last];
      assert forall c :: c in cs <==> c in init || c == last;
      AllOneWay(s, init);
    }
  }

  function Elements<T>(xs: seq<T>): set<T> {
    set x | x in xs
  }

  ghost predicate Distinct<T>(xs: seq<T>) {
    forall i, j :: 0 <= i < j < |xs| ==> xs[i] != xs[j]
  }

  /** Any order in which a `range` loop may visit the members of a set or the keys of a map. */
  method VisitOrder<T(==)>(s: set<T>) returns (xs: seq<T>)
    ensures Distinct(xs)
    ensures Elements(xs) == s
  {
    xs := [];
    var rest := s;
    while rest != {}
      invariant rest !! Elements(xs)
      invariant Elements(xs) + rest == s
      invariant Distinct(xs)
    {
      var x :| x in rest;
      assert Elements(xs + [x]) == Elements(xs) + {x};
      xs := xs + [x];
      rest := rest - {x};
    }
  }

  /** The part of a visit that remains grows smaller by exactly the member being visited. */
  lemma PrefixElements<T>(xs: seq<T>, i: nat)
    requires i < |xs|
    ensures Elements(xs[..i + 1]) == Elements(xs[..i]) + {xs[i]}
    ensures Distinct(xs) ==> xs[i] !in Elements(xs[..i])
  {
    assert xs[..i + 1] == xs[..i] + [xs[i]];
  }

  lemma DistinctLength<T>(xs: seq<T>)
    requires Distinct(xs)
    ensures |Elements(xs)| == |xs|
  {
    if xs != [] {
      var n := |xs| - 1;
      DistinctLength(xs[..n]);
      PrefixElements(xs, n);
      assert xs[..n + 1] == xs;
    } else {
      assert Elements(xs) == {};
    }
  }

  /** How often something occurs. */
  function Count<T(==)>(xs: seq<T>, x: T): nat {
    multiset(xs)[x]
  }

  lemma CountNone<T>()
    ensures forall x: T :: Count([], x) == 0
  {
  }

  lemma CountTogether<T>(xs: seq<T>, ys: seq<T>, x: T)
    ensures Count(xs + ys, x) == Count(xs, x) + Count(ys, x)
  {
    assert multiset(xs + ys) == multiset(xs) + multiset(ys);
  }

  lemma CountOneMore<T(!new)>(xs: seq<T>, y: T)
    ensures forall x :: Count(xs + [y], x) == Count(xs, x) + if x == y then 1 else 0
  {
    assert multiset(xs + [y]) == multiset(xs) + multiset{y};
  }

  lemma CountWithout<T>(xs: seq<T>, i: nat, x: T)
    requires i < |xs|
    ensures Count(xs, x) == Count(xs[..i] + xs[i + 1..], x) + if xs[i] == x then 1 else 0
  {
    assert xs == xs[..i] + [xs[i]] + xs[i + 1..];
  }

  lemma CountTwice<T>(xs: seq<T>, i: nat, j: nat)
    requires i < |xs| && j < |xs| && i != j && xs[i] == xs[j]
    ensures Count(xs, xs[i]) >= 2
  {
    var rest := xs[..i] + xs[i + 1..];
    CountWithout(xs, i, xs[i]);
    assert rest[if j < i then j else j - 1] == xs[i];
    assert xs[i] in rest;
  }

  /** Without repeats, each member is there once. */
  lemma {:induction false} OnceEach<T>(xs: seq<T>)
    requires Distinct(xs)
    ensures multiset(xs) == multiset(Elements(xs))
  {
    if xs != [] {
      var init, last := xs[..|xs| - 1], xs[|xs| - 1];
      assert xs == init + [last];
      OnceEach(init);
      assert last !in init;
      assert Elements(xs) == Elements(init) + {last};
    }
  }

  lemma CountOnce<T>(xs: seq<T>, x: T)
    requires forall i, j | 0 <= i < |xs| && 0 <= j < |xs| && xs[i] == x && xs[j] == x :: i == j
    ensures Count(xs, x) == if x in xs then 1 else 0
  {
    if x in xs {
      var i :| 0 <= i < |xs| && xs[i] == x;
      var rest := xs[..i] + xs[i + 1..];
      CountWithout(xs, i, x);
      forall j | 0 <= j < |rest|
        ensures rest[j] != x
      {
        assert rest[j] == xs[if j < i then j else j + 1];
      }
    }
  }

  lemma CountDistinct<T(!new)>(xs: seq<T>)
    ensures Distinct(xs) <==> forall x :: Count(xs, x) <= 1
    ensures forall x :: Count(xs, x) > 0 <==> x in xs
  {
    if Distinct(xs) {
      forall x
        ensures Count(xs, x) <= 1
      {
        CountOnce(xs, x);
      }
    } else {
      var i, j :| 0 <= i < j < |xs| && xs[i] == xs[j];
      CountTwice(xs, i, j);
    }
  }

  lemma DistinctTogether<T>(xs: seq<T>, ys: seq<T>)
    requires Distinct(xs) && Distinct(ys) && forall x | x in xs :: x !in ys
    ensures Distinct(xs + ys)
  {
    var all := xs + ys;
    forall i, j | 0 <= i < j < |all|
      ensures all[i] != all[j]
    {
      if i < |xs| && j >= |xs| {
        assert xs[i] in xs && ys[j - |xs|] in ys;
      }
    }
  }

  lemma SameSet<T(!new)>(s: set<T>, t: set<T>)
    requires forall x :: x in s <==> x in t
    ensures s == t
  {
  }

  lemma SameMap<K(!new), V>(m: map<K, V>, n: map<K, V>)
    requires forall k :: k in m <==> k in n
    requires forall k | k in m :: m[k] == n[k]
    ensures m == n
  {
  }
}
