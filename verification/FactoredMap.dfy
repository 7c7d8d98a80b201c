/**
 A mutable map from whole keys to values, held as a two-level map over a factoring of the key
 (pkg/placement/map-factored.go), and the deeper nestings of it that the program builds.
 */
module FactoredMaps {
  import opened Changes

  /** A bijection between a whole and a pair of parts. */
  datatype Factorer<!W, !A, !B> = Factorer(factor: W -> (A, B), unfactor: (A, B) -> W)

  ghost predicate Bijective<W(!new), A(!new), B(!new)>(f: Factorer<W, A, B>) {
    && (forall w :: f.unfactor(f.factor(w).0, f.factor(w).1) == w)
    && (forall a, b :: f.factor(f.unfactor(a, b)) == (a, b))
  }

  type Nested<A, B, V> = map<A, map<B, V>>

  predicate Has<A, B, V>(m: Nested<A, B, V>, a: A, b: B) {
    a in m && b in m[a]
  }

  function PairFactorer<A, B>(): Factorer<(A, B), A, B> {
    Factorer((w: (A, B)) => w, (a: A, b: B) => (a, b))
  }

  lemma PairFactorerIsBijective<A(!new), B(!new)>()
    ensures Bijective(PairFactorer<A, B>())
  {
  }

  function Inner<A, B, V>(m: Nested<A, B, V>, a: A): map<B, V> {
    if a in m then m[a] else map[]
  }

  function PutIn<A, B, V>(m: Nested<A, B, V>, a: A, b: B, v: V): Nested<A, B, V> {
    m[a := Inner(m, a)[b := v]]
  }

  /** An inner map that becomes empty goes away with its outer entry. */
  function DeleteIn<A, B, V>(m: Nested<A, B, V>, a: A, b: B): Nested<A, B, V> {
    if !Has(m, a, b) then m
    else if m[a].Keys == {b} then m - {a}
    else m[a := m[a] - {b}]
  }

  ghost predicate NoneEmpty<A, B, V>(m: Nested<A, B, V>) {
    forall a | a in m :: m[a] != map[]
  }

  lemma PutInEntries<A, B, V>(m: Nested<A, B, V>, a: A, b: B, v: V)
    ensures NoneEmpty(m) ==> NoneEmpty(PutIn(m, a, b, v))
    ensures forall a', b' :: Has(PutIn(m, a, b, v), a', b') <==> Has(m, a', b') || (a', b') == (a, b)
    ensures forall a', b' | Has(PutIn(m, a, b, v), a', b') ::
              PutIn(m, a, b, v)[a'][b'] == if (a', b') == (a, b) then v else m[a'][b']
  {
    assert b in PutIn(m, a, b, v)[a];
  }

  lemma DeleteInEntries<A, B, V>(m: Nested<A, B, V>, a: A, b: B)
    requires NoneEmpty(m)
    ensures NoneEmpty(DeleteIn(m, a, b))
    ensures forall a', b' :: Has(DeleteIn(m, a, b), a', b') <==> Has(m, a', b') && (a', b') != (a, b)
    ensures forall a', b' | Has(DeleteIn(m, a, b), a', b') :: DeleteIn(m, a, b)[a'][b'] == m[a'][b']
  {
    if Has(m, a, b) && m[a].Keys != {b} {
      var b' :| b' in m[a].Keys && b' != b;
      assert b' in (m[a] - {b}).Keys;
    }
  }

  /** The nested map `m` stands for the flat map `flat` under the factoring `f`. */
  ghost predicate Represents<W(!new), A, B, V>(f: Factorer<W, A, B>, m: Nested<A, B, V>, flat: map<W, V>) {
    && (forall w :: w in flat <==> Has(m, f.factor(w).0, f.factor(w).1))
    && (forall w | w in flat :: flat[w] == m[f.factor(w).0][f.factor(w).1])
  }

  /** Two flat maps cannot share a representation, nor one flat map have two without empty inner maps. */
  lemma RepresentationIsUnique<W(!new), A(!new), B(!new), V>(
      f: Factorer<W, A, B>, m: Nested<A, B, V>, m': Nested<A, B, V>, flat: map<W, V>, flat': map<W, V>)
    requires Bijective(f) && NoneEmpty(m) && NoneEmpty(m')
    requires Represents(f, m, flat) && Represents(f, m', flat')
    ensures m == m' <==> flat == flat'
  {
    if flat == flat' {
      forall a, b
        ensures Has(m, a, b) <==> Has(m', a, b)
        ensures Has(m, a, b) ==> m[a][b] == m'[a][b]
      {
        var w := f.unfactor(a, b);
        assert f.factor(w) == (a, b);
        assert w in flat <==> Has(m, a, b);
        assert w in flat' <==> Has(m', a, b);
      }
      SameEntries(m, m');
      SameEntries(m', m);
    }
  }

  lemma SameEntries<A, B, V>(m: Nested<A, B, V>, m': Nested<A, B, V>)
    requires NoneEmpty(m) && NoneEmpty(m')
    requires forall a, b :: Has(m, a, b) <==> Has(m', a, b)
    requires forall a, b | Has(m, a, b) && Has(m', a, b) :: m[a][b] == m'[a][b]
    ensures forall a | a in m :: a in m' && m'[a] == m[a]
  {
    forall a | a in m
      ensures a in m' && m'[a] == m[a]
    {
      assert exists b :: b in m[a];
      var b :| b in m[a];
      assert Has(m, a, b);
      assert Has(m', a, b);
      forall b'
        ensures b' in m[a] <==> b' in m'[a]
        ensures b' in m[a] ==> m'[a][b'] == m[a][b']
      {
        assert Has(m, a, b') <==> Has(m', a, b');
      }
    }
  }

  lemma PutRepresents<W(!new), A(!new), B(!new), V>(
      f: Factorer<W, A, B>, m: Nested<A, B, V>, flat: map<W, V>, w: W, v: V)
    requires Bijective(f) && Represents(f, m, flat)
    ensures Represents(f, PutIn(m, f.factor(w).0, f.factor(w).1, v), flat[w := v])
  {
    PutInEntries(m, f.factor(w).0, f.factor(w).1, v);
    forall w' | f.factor(w') == f.factor(w)
      ensures w' == w
    {
      assert f.unfactor(f.factor(w').0, f.factor(w').1) == w';
    }
  }

  lemma DeleteRepresents<W(!new), A(!new), B(!new), V>(
      f: Factorer<W, A, B>, m: Nested<A, B, V>, flat: map<W, V>, w: W)
    requires Bijective(f) && NoneEmpty(m) && Represents(f, m, flat)
    ensures Represents(f, DeleteIn(m, f.factor(w).0, f.factor(w).1), flat - {w})
  {
    DeleteInEntries(m, f.factor(w).0, f.factor(w).1);
    forall w' | f.factor(w') == f.factor(w)
      ensures w' == w
    {
      assert f.unfactor(f.factor(w').0, f.factor(w').1) == w';
    }
  }

  /** The nested map after a run of puts and deletes of whole keys, starting from the empty one. */
  function Run<W, A, B, V>(f: Factorer<W, A, B>, ops: seq<MapChange<W, V>>): Nested<A, B, V> {
    if ops == [] then map[] else
      var m := Run(f, ops[..|ops| - 1]);
      match ops[|ops| - 1]
      case Put(w, v) => PutIn(m, f.factor(w).0, f.factor(w).1, v)
      case Delete(w) => DeleteIn(m, f.factor(w).0, f.factor(w).1)
  }

  /** Over every run the factored map refines one flat map and keeps no empty inner map. */
  lemma {:induction false} RunRefinesFlatMap<W(!new), A(!new), B(!new), V>(
      f: Factorer<W, A, B>, ops: seq<MapChange<W, V>>)
    requires Bijective(f)
    ensures NoneEmpty(Run(f, ops))
    ensures Represents(f, Run(f, ops), AfterAll(map[], ops))
  {
    if ops != [] {
      var init, last := ops[..|ops| - 1], ops[|ops| - 1];
      RunRefinesFlatMap(f, init);
      var m := Run(f, init);
      var (a, b) := f.factor(last.key);
      match last
      case Put(w, v) =>
        PutRepresents(f, m, AfterAll(map[], init), w, v);
        PutInEntries(m, a, b, v);
      case Delete(w) =>
        DeleteRepresents(f, m, AfterAll(map[], init), w);
        DeleteInEntries(m, a, b);
    }
  }

  // ----- Three levels: the inner maps are factored maps themselves -----

  type Nested3<A, B, C, V> = map<A, Nested<B, C, V>>

  function PutIn3<A, B, C, V>(m: Nested3<A, B, C, V>, a: A, b: B, c: C, v: V): Nested3<A, B, C, V> {
    m[a := PutIn(if a in m then m[a] else map[], b, c, v)]
  }

  function DeleteIn3<A, B, C, V>(m: Nested3<A, B, C, V>, a: A, b: B, c: C): Nested3<A, B, C, V> {
    if a !in m || !Has(m[a], b, c) then m
    else
      var inner := DeleteIn(m[a], b, c);
      if inner.Keys == {} then m - {a} else m[a := inner]
  }

  /** Every inner map stands for the flat inner map, and there is no empty map at any level. */
  ghost predicate Deepens<A, BC(!new), B, C, V>(g: Factorer<BC, B, C>, deep: Nested3<A, B, C, V>, m: Nested<A, BC, V>) {
    && deep.Keys == m.Keys && NoneEmpty(m)
    && (forall a | a in deep :: NoneEmpty(deep[a]) && Represents(g, deep[a], m[a]))
  }

  lemma EmptyTogether<W(!new), A(!new), B(!new), V>(f: Factorer<W, A, B>, m: Nested<A, B, V>, flat: map<W, V>)
    requires Bijective(f) && NoneEmpty(m) && Represents(f, m, flat)
    ensures m == map[] <==> flat == map[]
  {
    if m != map[] {
      var a :| a in m;
      var b :| b in m[a];
      assert f.factor(f.unfactor(a, b)) == (a, b) && Has(m, a, b);
      assert f.unfactor(a, b) in flat;
    }
    if flat != map[] {
      var w :| w in flat;
      assert Has(m, f.factor(w).0, f.factor(w).1);
    }
  }

  lemma PutDeepens<A(!new), BC(!new), B(!new), C(!new), V>(g: Factorer<BC, B, C>, deep: Nested3<A, B, C, V>,
                                                           m: Nested<A, BC, V>, a: A, bc: BC, v: V)
    requires Bijective(g) && Deepens(g, deep, m)
    ensures Deepens(g, PutIn3(deep, a, g.factor(bc).0, g.factor(bc).1, v), PutIn(m, a, bc, v))
  {
    hide Bijective, Represents;
    var inner: Nested<B, C, V> := if a in deep then deep[a] else map[];
    assert Represents(g, inner, Inner(m, a)) by {
      if a !in deep {
        NothingRepresents<BC, B, C, V>(g);
      }
    }
    PutRepresents(g, inner, Inner(m, a), bc, v);
    PutInEntries(inner, g.factor(bc).0, g.factor(bc).1, v);
    PutInEntries(m, a, bc, v);
  }

  lemma NothingRepresents<W(!new), A, B, V>(f: Factorer<W, A, B>)
    ensures Represents<W, A, B, V>(f, map[], map[])
  {
  }

  lemma DeleteDeepens<A(!new), BC(!new), B(!new), C(!new), V>(g: Factorer<BC, B, C>, deep: Nested3<A, B, C, V>,
                                                              m: Nested<A, BC, V>, a: A, bc: BC)
    requires Bijective(g) && Deepens(g, deep, m)
    ensures Deepens(g, DeleteIn3(deep, a, g.factor(bc).0, g.factor(bc).1), DeleteIn(m, a, bc))
  {
    hide Bijective, Represents, DeleteIn;
    var (b, c) := g.factor(bc);
    if a in m {
      SameEntry(g, deep[a], m[a], bc);
    }
    if Has(m, a, bc) {
      DeleteRepresents(g, deep[a], m[a], bc);
      DeleteInEntries(deep[a], b, c);
      EmptyTogether(g, DeleteIn(deep[a], b, c), m[a] - {bc});
      OnlyEntry(m[a], bc);
    }
    DeletedIn(m, a, bc);
  }

  lemma SameEntry<W(!new), A, B, V>(f: Factorer<W, A, B>, m: Nested<A, B, V>, flat: map<W, V>, w: W)
    requires Represents(f, m, flat)
    ensures w in flat <==> Has(m, f.factor(w).0, f.factor(w).1)
  {
  }

  lemma OnlyEntry<K, V>(m: map<K, V>, k: K)
    requires k in m
    ensures m.Keys == {k} <==> m - {k} == map[]
  {
    assert (m - {k}).Keys == m.Keys - {k};
    assert m.Keys == (m.Keys - {k}) + {k};
  }

  lemma DeletedIn<A, B, V>(m: Nested<A, B, V>, a: A, b: B)
    requires NoneEmpty(m)
    ensures NoneEmpty(DeleteIn(m, a, b))
    ensures DeleteIn(m, a, b) == if !Has(m, a, b) then m else if m[a].Keys == {b} then m - {a} else m[a := m[a] - {b}]
  {
    DeleteInEntries(m, a, b);
  }

  function Run3<W, A, BC, B, C, V>(f: Factorer<W, A, BC>, g: Factorer<BC, B, C>,
                                   ops: seq<MapChange<W, V>>): Nested3<A, B, C, V> {
    if ops == [] then map[]
    else
      var m, op := Run3(f, g, ops[..|ops| - 1]), ops[|ops| - 1];
      var (a, bc) := f.factor(op.key);
      var (b, c) := g.factor(bc);
      match op
      case Put(_, v) => PutIn3(m, a, b, c, v)
      case Delete(_) => DeleteIn3(m, a, b, c)
  }

  /** After any run of puts and deletes the three levels stand for the flat map that the same run gives. */
  lemma {:induction false} Run3RefinesFlatMap<W(!new), A(!new), BC(!new), B(!new), C(!new), V>(
      f: Factorer<W, A, BC>, g: Factorer<BC, B, C>, ops: seq<MapChange<W, V>>)
    requires Bijective(f) && Bijective(g)
    ensures Deepens(g, Run3(f, g, ops), Run(f, ops))
    ensures Represents(f, Run(f, ops), AfterAll(map[], ops))
  {
    RunRefinesFlatMap(f, ops);
    if ops != [] {
      var init, op := ops[..|ops| - 1], ops[|ops| - 1];
      Run3RefinesFlatMap(f, g, init);
      var (a, bc) := f.factor(op.key);
      match op {
        case Put(_, v) => PutDeepens(g, Run3(f, g, init), Run(f, init), a, bc, v);
        case Delete(_) => DeleteDeepens(g, Run3(f, g, init), Run(f, init), a, bc);
      }
    }
  }

  /** The entries whose first part is among `done`. */
  ghost function Within<W, A, B, V>(f: Factorer<W, A, B>, flat: map<W, V>, done: set<A>): set<W> {
    set w | w in flat && f.factor(w).0 in done
  }

  lemma ImageSize<B, W>(bs: set<B>, g: B -> W)
    requires forall b, b' | b in bs && b' in bs && g(b) == g(b') :: b == b'
    ensures |set b | b in bs :: g(b)| == |bs|
  {
    if bs != {} {
      var b :| b in bs;
      ImageSize(bs - {b}, g);
      assert (set b' | b' in bs :: g(b')) == (set b' | b' in bs - {b} :: g(b')) + {g(b)};
    }
  }

  lemma GroupSize<W(!new), A(!new), B(!new), V>(f: Factorer<W, A, B>, m: Nested<A, B, V>, flat: map<W, V>, done: set<A>,
                                                a: A)
    requires Bijective(f) && Represents(f, m, flat)
    requires a in m && a !in done
    ensures |Within(f, flat, done + {a})| == |Within(f, flat, done)| + |m[a]|
  {
    hide Represents;
    var group := set w | w in flat && f.factor(w).0 == a;
    GroupImage(f, m, flat, a);
    ImageOfInner(f, m[a], a);
    hide Bijective;
    assert Within(f, flat, done + {a}) == Within(f, flat, done) + group;
    assert Within(f, flat, done) !! group;
  }

  lemma ImageOfInner<W(!new), A(!new), B(!new), V>(f: Factorer<W, A, B>, inner: map<B, V>, a: A)
    requires Bijective(f)
    ensures |set b | b in inner.Keys :: f.unfactor(a, b)| == |inner|
  {
    var g := (b: B) => f.unfactor(a, b);
    forall b, b' | f.unfactor(a, b) == f.unfactor(a, b')
      ensures b == b'
    {
      assert f.factor(f.unfactor(a, b)) == (a, b) && f.factor(f.unfactor(a, b')) == (a, b');
    }
    ImageSize(inner.Keys, g);
    assert (set b | b in inner.Keys :: f.unfactor(a, b)) == set b | b in inner.Keys :: g(b);
  }

  /** The keys of a group are those that the inner map has, put together with the key of the group. */
  lemma GroupImage<W(!new), A(!new), B(!new), V>(f: Factorer<W, A, B>, m: Nested<A, B, V>, flat: map<W, V>, a: A)
    requires Bijective(f) && Represents(f, m, flat) && a in m
    ensures (set b | b in m[a].Keys :: f.unfactor(a, b)) == set w | w in flat && f.factor(w).0 == a
  {
    forall w
      ensures w in (set b | b in m[a].Keys :: f.unfactor(a, b)) <==> w in flat && f.factor(w).0 == a
    {
      if w in flat && f.factor(w).0 == a {
        assert w == f.unfactor(a, f.factor(w).1);
      }
    }
  }

  /** What the two observers of a factored map hear about one change. */
  datatype Notice<+W, +A, +B, +V> = Notice(unified: MapEvent<W, V>, grouped: MapChange<A, map<B, V>>)

  class FactoredMap<W(==, !new), A(==, !new), B(==, !new), V(==)> {
    const keyDecomposer: Factorer<W, A, B>
    var outer: Nested<A, B, V>
    ghost var contents: map<W, V>

    ghost predicate Valid()
      reads this
    {
      Bijective(keyDecomposer) && NoneEmpty(outer) && Represents(keyDecomposer, outer, contents)
    }

    constructor (keyDecomposer: Factorer<W, A, B>)
      requires Bijective(keyDecomposer)
      ensures Valid() && this.keyDecomposer == keyDecomposer
      ensures outer == map[] && contents == map[]
    {
      this.keyDecomposer := keyDecomposer;
      outer, contents := map[], map[];
    }

    method IsEmpty() returns (r: bool)
      requires Valid()
      ensures r <==> contents == map[]
    {
      r := outer == map[];
      if !r {
        ghost var a :| a in outer;
        ghost var b :| b in outer[a];
        assert keyDecomposer.unfactor(a, b) in contents;
      }
    }

    method Get(w: W) returns (r: Option<V>)
      requires Valid()
      ensures r == if w in contents then Some(contents[w]) else None
    {
      var (a, b) := keyDecomposer.factor(w);
      if a !in outer || b !in outer[a] {
        return None;
      }
      return Some(outer[a][b]);
    }

    method Put(w: W, v: V) returns (n: Notice<W, A, B, V>)
      requires Valid()
      modifies this
      ensures Valid()
      ensures contents == old(contents)[w := v]
      ensures outer == PutIn(old(outer), keyDecomposer.factor(w).0, keyDecomposer.factor(w).1, v)
      ensures Truthful(old(contents), n.unified) && Replay(old(contents), n.unified) == contents
      ensures n.unified.key == w && !n.unified.DeleteWithFinal?
      ensures var a := keyDecomposer.factor(w).0;
              n.grouped == MapChange.Put(a, outer[a]) && outer[a] != map[]
      ensures outer == After(old(outer), n.grouped)
    {
      var (a, b) := keyDecomposer.factor(w);
      PutRepresents(keyDecomposer, outer, contents, w, v);
      PutInEntries(outer, a, b, v);
      if a !in outer {
        var inner := map[b := v];
        outer := outer[a := inner];
        n := Notice(Create(w, v), MapChange.Put(a, inner));
      } else {
        var inner := outer[a];
        var event := if b in inner then Update(w, inner[b], v) else Create(w, v);
        inner := inner[b := v];
        outer := outer[a := inner];
        n := Notice(event, MapChange.Put(a, inner));
      }
      contents := contents[w := v];
    }

    method Delete(w: W) returns (n: Option<Notice<W, A, B, V>>)
      requires Valid()
      modifies this
      ensures Valid()
      ensures contents == old(contents) - {w}
      ensures outer == DeleteIn(old(outer), keyDecomposer.factor(w).0, keyDecomposer.factor(w).1)
      ensures n.Some? <==> w in old(contents)
      ensures n.Some? ==>
                var a := keyDecomposer.factor(w).0;
                && n.value.unified == DeleteWithFinal(w, old(contents)[w])
                && n.value.grouped == (if a in outer then MapChange.Put(a, outer[a]) else MapChange.Delete(a))
                && (a in outer ==> outer[a] != map[])
                && Has(old(outer), a, keyDecomposer.factor(w).1)
      ensures outer == if n.Some? then After(old(outer), n.value.grouped) else old(outer)
    {
      var (a, b) := keyDecomposer.factor(w);
      DeleteRepresents(keyDecomposer, outer, contents, w);
      DeleteInEntries(outer, a, b);
      if a !in outer || b !in outer[a] {
        contents := contents - {w};
        return None;
      }
      var inner := outer[a];
      var event := DeleteWithFinal(w, inner[b]);
      inner := inner - {b};
      contents := contents - {w};
      if inner == map[] {
        outer := outer - {a};
        n := Some(Notice(event, MapChange.Delete(a)));
      } else {
        outer := outer[a := inner];
        n := Some(Notice(event, MapChange.Put(a, inner)));
      }
    }

    /**
     Over any calls, whoever replays what the observers were told has what the map holds: the unified
     observer the entries, the one of the outer map the groups.
     */
    method Run(calls: seq<MapChange<W, V>>)
      returns (unified: seq<MapEvent<W, V>>, grouped: seq<MapChange<A, map<B, V>>>)
      requires Valid()
      modifies this
      ensures Valid() && contents == AfterAll(old(contents), calls)
      ensures AllTruthful(old(contents), unified) && ReplayAll(old(contents), unified) == contents
      ensures forall i | 0 <= i < |unified| ::
                var now := ReplayAll(old(contents), unified[..i]);
                match unified[i]
                case Create(k, _) => k !in now
                case Update(k, prev, _) => k in now && now[k] == prev
                case DeleteWithFinal(k, final) => k in now && now[k] == final
      ensures AfterAll(old(outer), grouped) == outer
    {
      hide Valid;
      unified, grouped := [], [];
      for i := 0 to |calls|
        invariant Valid() && contents == AfterAll(old(contents), calls[..i])
        invariant AllTruthful(old(contents), unified) && ReplayAll(old(contents), unified) == contents
        invariant AfterAll(old(outer), grouped) == outer
      {
        assert calls[..i + 1][..i] == calls[..i];
        var n: Option<Notice<W, A, B, V>> := None;
        match calls[i] {
          case Put(w, v) =>
            var told := Put(w, v);
            n := Some(told);
          case Delete(w) =>
            ghost var was := contents;
            n := Delete(w);
            assert was - {w} == if w in was then Replay(was, DeleteWithFinal(w, was[w])) else was;
        }
        if n.Some? {
          ReplayAllSnoc(old(contents), unified, n.value.unified);
          AfterAllSnoc(old(outer), grouped, n.value.grouped);
          unified, grouped := unified + [n.value.unified], grouped + [n.value.grouped];
        }
      }
      assert calls[..|calls|] == calls;
      TruthfulAlong(old(contents), unified);
    }

    /** The entries whose keys have a first part among these, once each. */
    ghost predicate Listed(entries: seq<(W, V)>, firsts: set<A>)
      reads this
    {
      && Distinct(entries)
      && (forall e | e in entries :: e.0 in contents && e.1 == contents[e.0] && keyDecomposer.factor(e.0).0 in firsts)
      && (forall w | w in contents && keyDecomposer.factor(w).0 in firsts :: (w, contents[w]) in entries)
    }

    lemma OneMoreListed(entries: seq<(W, V)>, firsts: set<A>, a: A, bs: seq<B>, group: seq<(W, V)>)
      requires Valid() && Listed(entries, firsts) && a in outer && a !in firsts
      requires Distinct(bs) && Elements(bs) == outer[a].Keys && |group| == |bs|
      requires forall j | 0 <= j < |bs| :: group[j] == (keyDecomposer.unfactor(a, bs[j]), outer[a][bs[j]])
      ensures Listed(entries + group, firsts + {a})
    {
      assert forall b :: b in bs <==> b in outer[a] by {
        assert forall b :: b in bs <==> b in Elements(bs);
      }
      forall j | 0 <= j < |bs|
        ensures group[j].0 in contents && group[j].1 == contents[group[j].0]
        ensures keyDecomposer.factor(group[j].0) == (a, bs[j])
      {
        assert bs[j] in bs;
      }
      forall w | w in contents && keyDecomposer.factor(w).0 == a
        ensures (w, contents[w]) in group
      {
        var b := keyDecomposer.factor(w).1;
        assert keyDecomposer.unfactor(a, b) == w && b in bs;
        var j :| 0 <= j < |bs| && bs[j] == b;
        assert group[j] == (w, contents[w]);
      }
      DistinctTogether(entries, group);
    }

    /** Every entry once, in an order that follows no rule. */
    method Visit() returns (entries: seq<(W, V)>)
      requires Valid()
      ensures Distinct(entries)
      ensures Elements(entries) == contents.Items
    {
      hide Valid, Listed;
      entries := [];
      var todo := VisitOrder(outer.Keys);
      NoneListed();
      assert Elements(todo[..0]) == {};
      for i := 0 to |todo|
        invariant Listed(entries, Elements(todo[..i]))
      {
        PrefixElements(todo, i);
        assert todo[i] in Elements(todo);
        var group := VisitGroup(todo[i], entries, Elements(todo[..i]));
        entries := entries + group;
      }
      assert todo[..|todo|] == todo;
      AllListed(entries);
    }

    method VisitGroup(a: A, ghost entries: seq<(W, V)>, ghost firsts: set<A>) returns (group: seq<(W, V)>)
      requires Valid() && Listed(entries, firsts) && a in outer && a !in firsts
      ensures Listed(entries + group, firsts + {a})
    {
      hide Valid, Listed;
      group := [];
      var bs := VisitOrder(outer[a].Keys);
      for j := 0 to |bs|
        invariant |group| == j
        invariant forall h | 0 <= h < j ::
                    bs[h] in outer[a] && group[h] == (keyDecomposer.unfactor(a, bs[h]), outer[a][bs[h]])
      {
        assert bs[j] in Elements(bs);
        group := group + [(keyDecomposer.unfactor(a, bs[j]), outer[a][bs[j]])];
      }
      OneMoreListed(entries, firsts, a, bs, group);
    }

    lemma NoneListed()
      ensures Listed([], {})
    {
    }

    lemma AllListed(entries: seq<(W, V)>)
      requires Valid() && Listed(entries, outer.Keys)
      ensures Distinct(entries) && Elements(entries) == contents.Items
    {
      forall e | e in entries
        ensures e in contents.Items
      {
        assert e == (e.0, e.1);
      }
      forall e | e in contents.Items
        ensures e in entries
      {
        assert e == (e.0, contents[e.0]);
      }
      assert Elements(entries) == contents.Items;
    }

    /** The sum of the sizes of the inner maps is the number of entries. */
    method Len() returns (n: nat)
      requires Valid()
      ensures n == |contents|
    {
      n := 0;
      var todo := VisitOrder(outer.Keys);
      assert Within(keyDecomposer, contents, Elements(todo[..0])) == {};
      for i := 0 to |todo|
        invariant n == |Within(keyDecomposer, contents, Elements(todo[..i]))|
      {
        assert todo[i] in Elements(todo);
        PrefixElements(todo, i);
        GroupSize(keyDecomposer, outer, contents, Elements(todo[..i]), todo[i]);
        n := n + |outer[todo[i]]|;
      }
      assert todo[..|todo|] == todo;
      assert Within(keyDecomposer, contents, outer.Keys) == contents.Keys;
    }
  }
}
