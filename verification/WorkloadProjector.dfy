/**
 The tables of the workload projector (pkg/placement/workload-projector.go). Every distribution
 is held twice, indexed by destination and indexed by source. The inner maps of those indices
 belong to per-destination and per-source records that outlive their entries in the index. A record
 of a destination leads from object to source, one of a source from resource to object to destination.
 */
module WorkloadProjector {
  import opened Changes
  import opened FactoredMaps
  import opened PlacementTypes

  /** Taking an entry out of a record, which may be left empty. */
  lemma TakenOutRepresents<W(!new), A(!new), B(!new), V>(f: Factorer<W, A, B>, m: Nested<A, B, V>, flat: map<W, V>,
                                                         w: W)
    requires Bijective(f) && Represents(f, m, flat) && f.factor(w).0 in m
    ensures var (a, b) := f.factor(w);
            Represents(f, m[a := m[a] - {b}], flat - {w})
  {
    assert forall w' :: f.unfactor(f.factor(w').0, f.factor(w').1) == w';
  }

  // ----- The records have two or three levels inside -----

  /** The two levels stand for a map by pairs, and none is empty. */
  ghost predicate Stands2<B(!new), C(!new), V>(record: Nested<B, C, V>, flat: map<(B, C), V>) {
    NoneEmpty(record) && Represents(PairFactorer(), record, flat)
  }

  lemma Stands2Is<B(!new), C(!new), V>(record: Nested<B, C, V>, flat: map<(B, C), V>, b: B, c: C)
    requires Stands2(record, flat)
    ensures (b, c) in flat <==> Has(record, b, c)
    ensures (b, c) in flat ==> flat[(b, c)] == record[b][c]
  {
    assert PairFactorer<B, C>().factor((b, c)) == (b, c);
  }

  lemma Nothing2<B(!new), C(!new), V>()
    ensures Stands2<B, C, V>(map[], map[])
  {
  }

  lemma Put2<B(!new), C(!new), V>(record: Nested<B, C, V>, flat: map<(B, C), V>, b: B, c: C, v: V)
    requires Stands2(record, flat)
    ensures Stands2(PutIn(record, b, c, v), flat[(b, c) := v]) && PutIn(record, b, c, v) != map[]
  {
    hide Bijective, Represents;
    PairFactorerIsBijective<B, C>();
    PutRepresents(PairFactorer(), record, flat, (b, c), v);
    PutInEntries(record, b, c, v);
    assert b in PutIn(record, b, c, v);
  }

  lemma Delete2<B(!new), C(!new), V>(record: Nested<B, C, V>, flat: map<(B, C), V>, b: B, c: C)
    requires Stands2(record, flat)
    ensures Stands2(DeleteIn(record, b, c), flat - {(b, c)})
  {
    hide Bijective, Represents;
    PairFactorerIsBijective<B, C>();
    DeleteRepresents(PairFactorer(), record, flat, (b, c));
    DeleteInEntries(record, b, c);
  }

  predicate Has3<B, C, D, V>(record: Nested3<B, C, D, V>, b: B, c: C, d: D) {
    b in record && Has(record[b], c, d)
  }

  /** The three levels stand for a map by pairs of pairs, and none is empty. */
  ghost predicate Stands3<B(!new), C(!new), D(!new), V>(record: Nested3<B, C, D, V>, flat: map<(B, (C, D)), V>) {
    && (forall b | b in record :: record[b] != map[] && NoneEmpty(record[b]))
    && (forall b, c, d :: (b, (c, d)) in flat <==> Has3(record, b, c, d))
    && (forall b, c, d | Has3(record, b, c, d) :: flat[(b, (c, d))] == record[b][c][d])
  }

  lemma Nothing3<B(!new), C(!new), D(!new), V>()
    ensures Stands3<B, C, D, V>(map[], map[])
  {
  }

  lemma PutIn3Entries<B, C, D, V>(m: Nested3<B, C, D, V>, b: B, c: C, d: D, v: V)
    requires forall x | x in m :: m[x] != map[] && NoneEmpty(m[x])
    ensures var next := PutIn3(m, b, c, d, v);
            && (forall x | x in next :: next[x] != map[] && NoneEmpty(next[x]))
            && (forall x, y, z :: Has3(next, x, y, z) <==> Has3(m, x, y, z) || (x, y, z) == (b, c, d))
            && (forall x, y, z | Has3(next, x, y, z) ::
                  next[x][y][z] == if (x, y, z) == (b, c, d) then v else m[x][y][z])
  {
    hide PutIn;
    var inner: Nested<C, D, V> := if b in m then m[b] else map[];
    PutInEntries(inner, c, d, v);
    assert Has(PutIn(inner, c, d, v), c, d);
  }

  lemma DeleteIn3Entries<B, C, D, V>(m: Nested3<B, C, D, V>, b: B, c: C, d: D)
    requires forall x | x in m :: m[x] != map[] && NoneEmpty(m[x])
    ensures var next := DeleteIn3(m, b, c, d);
            && (forall x | x in next :: next[x] != map[] && NoneEmpty(next[x]))
            && (forall x, y, z :: Has3(next, x, y, z) <==> Has3(m, x, y, z) && (x, y, z) != (b, c, d))
            && (forall x, y, z | Has3(next, x, y, z) :: next[x][y][z] == m[x][y][z])
  {
    hide DeleteIn;
    if Has3(m, b, c, d) {
      DeleteInEntries(m[b], c, d);
      var inner := DeleteIn(m[b], c, d);
      if inner.Keys == {} {
        assert forall y, z :: !Has(inner, y, z);
      } else {
        assert inner != map[];
      }
    }
  }

  lemma Put3<B(!new), C(!new), D(!new), V>(record: Nested3<B, C, D, V>, flat: map<(B, (C, D)), V>, b: B, c: C, d: D,
                                           v: V)
    requires Stands3(record, flat)
    ensures Stands3(PutIn3(record, b, c, d, v), flat[(b, (c, d)) := v]) && PutIn3(record, b, c, d, v) != map[]
  {
    hide PutIn3, Has3, NoneEmpty;
    PutIn3Entries(record, b, c, d, v);
    PutInThere(record, b, c, d, v);
  }

  lemma PutInThere<B, C, D, V>(m: Nested3<B, C, D, V>, b: B, c: C, d: D, v: V)
    ensures b in PutIn3(m, b, c, d, v)
  {
  }

  lemma Delete3<B(!new), C(!new), D(!new), V>(record: Nested3<B, C, D, V>, flat: map<(B, (C, D)), V>, b: B, c: C, d: D)
    requires Stands3(record, flat)
    ensures Stands3(DeleteIn3(record, b, c, d), flat - {(b, (c, d))})
  {
    hide DeleteIn3, Has3, NoneEmpty;
    DeleteIn3Entries(record, b, c, d);
  }

  // ----- All the records, and which of them the index leads to -----

  ghost predicate Records2<A(!new), B(!new), C(!new), V>(records: map<A, Nested<B, C, V>>, flat: Nested<A, (B, C), V>,
                                                         outer: set<A>) {
    && records.Keys == flat.Keys && (forall a | a in records :: Stands2(records[a], flat[a]))
    && (forall a :: a in outer <==> a in records && records[a] != map[])
  }

  lemma RecordsPut2<A(!new), B(!new), C(!new), V>(records: map<A, Nested<B, C, V>>, flat: Nested<A, (B, C), V>,
                                                  outer: set<A>, a: A, b: B, c: C, v: V)
    requires Records2(records, flat, outer)
    ensures Records2(records[a := PutIn(Inner(records, a), b, c, v)], PutIn(flat, a, (b, c), v), outer + {a})
  {
    hide Stands2;
    Nothing2<B, C, V>();
    Put2(Inner(records, a), Inner(flat, a), b, c, v);
  }

  lemma RecordsDelete2<A(!new), B(!new), C(!new), V>(records: map<A, Nested<B, C, V>>, flat: Nested<A, (B, C), V>,
                                                     outer: set<A>, a: A, b: B, c: C)
    requires Records2(records, flat, outer) && a in records
    ensures var next := DeleteIn(records[a], b, c);
            Records2(records[a := next], flat[a := flat[a] - {(b, c)}],
                     if next == map[] then outer - {a} else outer + {a})
  {
    hide Stands2, DeleteIn;
    Delete2(records[a], flat[a], b, c);
  }

  ghost predicate Records3<A(!new), B(!new), C(!new), D(!new), V>(
      records: map<A, Nested3<B, C, D, V>>, flat: Nested<A, (B, (C, D)), V>, outer: set<A>) {
    && records.Keys == flat.Keys && (forall a | a in records :: Stands3(records[a], flat[a]))
    && (forall a :: a in outer <==> a in records && records[a] != map[])
  }

  lemma RecordsPut3<A(!new), B(!new), C(!new), D(!new), V>(
      records: map<A, Nested3<B, C, D, V>>, flat: Nested<A, (B, (C, D)), V>, outer: set<A>, a: A, b: B, c: C, d: D,
      v: V)
    requires Records3(records, flat, outer)
    ensures Records3(records[a := PutIn3(Inner(records, a), b, c, d, v)], PutIn(flat, a, (b, (c, d)), v), outer + {a})
  {
    hide Stands3, PutIn3;
    Nothing3<B, C, D, V>();
    Put3(Inner(records, a), Inner(flat, a), b, c, d, v);
  }

  lemma RecordsDelete3<A(!new), B(!new), C(!new), D(!new), V>(
      records: map<A, Nested3<B, C, D, V>>, flat: Nested<A, (B, (C, D)), V>, outer: set<A>, a: A, b: B, c: C, d: D)
    requires Records3(records, flat, outer) && a in records
    ensures var next := DeleteIn3(records[a], b, c, d);
            Records3(records[a := next], flat[a := flat[a] - {(b, (c, d))}],
                     if next == map[] then outer - {a} else outer + {a})
  {
    hide Stands3, DeleteIn3;
    Delete3(records[a], flat[a], b, c, d);
  }

  /**
   A factored map whose inner maps live in records that are made once and kept for good. The index
   proper leads to a record by its key, and only as long as the record is not empty. Within a record
   there are two levels.
   */
  class RecordIndex2<W(==, !new), A(==, !new), B(==, !new), C(==, !new), V(==)> {
    const factoring: Factorer<W, A, (B, C)>
    var records: map<A, Nested<B, C, V>>
    var outer: set<A>
    ghost var flat: Nested<A, (B, C), V>
    ghost var contents: map<W, V>

    ghost predicate Valid()
      reads this
    {
      && Bijective(factoring) && Represents(factoring, flat, contents)
      && Records2(records, flat, outer)
    }

    constructor (factoring: Factorer<W, A, (B, C)>)
      requires Bijective(factoring)
      ensures Valid() && this.factoring == factoring && contents == map[]
    {
      this.factoring := factoring;
      records, outer, flat, contents := map[], {}, map[], map[];
    }

    method Put(w: W, v: V)
      requires Valid()
      modifies this
      ensures Valid() && contents == old(contents)[w := v]
    {
      hide Bijective, Represents, Records2, PutIn;
      var (a, (b, c)) := factoring.factor(w);
      PutRepresents(factoring, flat, contents, w, v);
      RecordsPut2(records, flat, outer, a, b, c, v);
      OuterOfRecords(a);
      if a !in outer {
        if a !in records {
          records := records[a := map[]];
        }
        records := records[a := PutIn(records[a], b, c, v)];
        outer := outer + {a};
      } else {
        records := records[a := PutIn(records[a], b, c, v)];
      }
      flat, contents := PutIn(flat, a, (b, c), v), contents[w := v];
      assert outer == old(outer) + {a} && records == old(records)[a := PutIn(Inner(old(records), a), b, c, v)];
    }

    /** The record stays although the index forgets it. */
    method Delete(w: W)
      requires Valid()
      modifies this
      ensures Valid() && contents == old(contents) - {w}
      ensures records.Keys == old(records.Keys)
    {
      hide Bijective, Represents, Records2, DeleteIn;
      var (a, (b, c)) := factoring.factor(w);
      EntryIs(w);
      OuterOfRecords(a);
      if a !in outer || !Has(records[a], b, c) {
        return;
      }
      TakenOutRepresents(factoring, flat, contents, w);
      RecordsDelete2(records, flat, outer, a, b, c);
      records := records[a := DeleteIn(records[a], b, c)];
      if records[a] == map[] {
        outer := outer - {a};
      }
      flat, contents := flat[a := flat[a] - {(b, c)}], contents - {w};
      assert records[a] != map[] ==> outer == old(outer) + {a};
    }

    lemma OuterOfRecords(a: A)
      requires Valid()
      ensures a in outer <==> a in records && records[a] != map[]
      ensures a in records <==> a in flat
    {
    }

    /** An entry is found by way of its record, level by level. */
    lemma EntryIs(w: W)
      requires Valid()
      ensures var (a, (b, c)) := factoring.factor(w);
              && (w in contents <==> a in records && a in outer && Has(records[a], b, c))
              && (a in records && Has(records[a], b, c) ==> a in outer && contents[w] == records[a][b][c])
    {
      hide Bijective, Stands2;
      var (a, (b, c)) := factoring.factor(w);
      assert factoring.factor(w) == (a, (b, c));
      if a in records {
        Stands2Is(records[a], flat[a], b, c);
      }
    }
  }

  /** The same with three levels within a record. */
  class RecordIndex3<W(==, !new), A(==, !new), B(==, !new), C(==, !new), D(==, !new), V(==)> {
    const factoring: Factorer<W, A, (B, (C, D))>
    var records: map<A, Nested3<B, C, D, V>>
    var outer: set<A>
    ghost var flat: Nested<A, (B, (C, D)), V>
    ghost var contents: map<W, V>

    ghost predicate Valid()
      reads this
    {
      && Bijective(factoring) && Represents(factoring, flat, contents)
      && Records3(records, flat, outer)
    }

    constructor (factoring: Factorer<W, A, (B, (C, D))>)
      requires Bijective(factoring)
      ensures Valid() && this.factoring == factoring && contents == map[]
    {
      this.factoring := factoring;
      records, outer, flat, contents := map[], {}, map[], map[];
    }

    method Put(w: W, v: V)
      requires Valid()
      modifies this
      ensures Valid() && contents == old(contents)[w := v]
    {
      hide Bijective, Represents, Records3, PutIn, PutIn3;
      var (a, (b, (c, d))) := factoring.factor(w);
      PutRepresents(factoring, flat, contents, w, v);
      RecordsPut3(records, flat, outer, a, b, c, d, v);
      OuterOfRecords(a);
      if a !in outer {
        if a !in records {
          records := records[a := map[]];
        }
        records := records[a := PutIn3(records[a], b, c, d, v)];
        outer := outer + {a};
      } else {
        records := records[a := PutIn3(records[a], b, c, d, v)];
      }
      flat, contents := PutIn(flat, a, (b, (c, d)), v), contents[w := v];
      assert outer == old(outer) + {a} && records == old(records)[a := PutIn3(Inner(old(records), a), b, c, d, v)];
    }

    /** The record stays although the index forgets it. */
    method Delete(w: W)
      requires Valid()
      modifies this
      ensures Valid() && contents == old(contents) - {w}
      ensures records.Keys == old(records.Keys)
    {
      hide Bijective, Represents, Records3, DeleteIn3;
      var (a, (b, (c, d))) := factoring.factor(w);
      EntryIs(w);
      OuterOfRecords(a);
      if a !in outer || !Has3(records[a], b, c, d) {
        return;
      }
      TakenOutRepresents(factoring, flat, contents, w);
      RecordsDelete3(records, flat, outer, a, b, c, d);
      records := records[a := DeleteIn3(records[a], b, c, d)];
      if records[a] == map[] {
        outer := outer - {a};
      }
      flat, contents := flat[a := flat[a] - {(b, (c, d))}], contents - {w};
      assert records[a] != map[] ==> outer == old(outer) + {a};
    }

    lemma OuterOfRecords(a: A)
      requires Valid()
      ensures a in outer <==> a in records && records[a] != map[]
      ensures a in records <==> a in flat
    {
    }

    /** An entry is found by way of its record, level by level. */
    lemma EntryIs(w: W)
      requires Valid()
      ensures var (a, (b, (c, d))) := factoring.factor(w);
              && (w in contents <==> a in records && a in outer && Has3(records[a], b, c, d))
              && (a in records && Has3(records[a], b, c, d) ==> a in outer && contents[w] == records[a][b][c][d])
    {
      hide Bijective;
      var (a, (b, (c, d))) := factoring.factor(w);
      assert factoring.factor(w) == (a, (b, (c, d)));
    }
  }

  /** The tables of the projector for one scope: namespaced objects or cluster-scoped objects. */
  class ScopeTables<Obj(==, !new)> {
    const distributionsForSync: RecordIndex2<DistributionTuple<Obj>, SinglePlacement, (GroupResource, Obj), string,
        DistributionBits>
    const distributionsForProj: RecordIndex3<DistributionTuple<Obj>, string, GroupResource, Obj, SinglePlacement,
        DistributionBits>
    const modesForSync: FactoredMap<ProjectionModeKey, SinglePlacement, GroupResource, string>
    const modesForProj: FactoredMap<ProjectionModeKey, GroupResource, SinglePlacement, string>

    ghost const Repr: set<object> := {distributionsForSync, distributionsForProj, modesForSync, modesForProj}

    ghost function Distributions(): map<DistributionTuple<Obj>, DistributionBits>
      reads distributionsForSync
    {
      distributionsForSync.contents
    }

    ghost function Modes(): map<ProjectionModeKey, string>
      reads modesForSync
    {
      modesForSync.contents
    }

    /** Both indices of each table stand for the same tuples. */
    ghost predicate Valid()
      reads Repr
    {
      && (distributionsForSync as object) != distributionsForProj
      && (modesForSync as object) != modesForProj
      && distributionsForSync.Valid() && distributionsForSync.factoring == FactorDistributionTupleForSync()
      && distributionsForProj.Valid() && distributionsForProj.factoring == FactorDistributionTupleForProj()
      && modesForSync.Valid() && modesForSync.keyDecomposer == FactorProjectionModeKeyForSyncer()
      && modesForProj.Valid() && modesForProj.keyDecomposer == FactorProjectionModeKeyForProj()
      && distributionsForSync.contents == distributionsForProj.contents
      && modesForSync.contents == modesForProj.contents
    }

    constructor ()
      ensures Valid() && fresh(Repr)
      ensures Distributions() == map[] && Modes() == map[]
    {
      hide RecordIndex2.Valid, RecordIndex3.Valid, FactoredMap.Valid, Bijective, FactorDistributionTupleForSync,
           FactorDistributionTupleForProj, FactorProjectionModeKeyForSyncer, FactorProjectionModeKeyForProj,
           FactorWhatWhereFullKey, FactorUpsyncTuple;
      FactorersAreBijective<Obj>();
      distributionsForSync := new RecordIndex2(FactorDistributionTupleForSync());
      distributionsForProj := new RecordIndex3(FactorDistributionTupleForProj());
      modesForSync := new FactoredMap(FactorProjectionModeKeyForSyncer());
      modesForProj := new FactoredMap(FactorProjectionModeKeyForProj());
    }

    method PutDistribution(t: DistributionTuple<Obj>, bits: DistributionBits)
      requires Valid()
      modifies Repr
      ensures Valid()
      ensures Distributions() == old(Distributions())[t := bits] && Modes() == old(Modes())
    {
      hide RecordIndex2.Valid, RecordIndex3.Valid, FactoredMap.Valid;
      distributionsForSync.Put(t, bits);
      distributionsForProj.Put(t, bits);
    }

    method DeleteDistribution(t: DistributionTuple<Obj>)
      requires Valid()
      modifies Repr
      ensures Valid()
      ensures Distributions() == old(Distributions()) - {t} && Modes() == old(Modes())
    {
      hide RecordIndex2.Valid, RecordIndex3.Valid, FactoredMap.Valid;
      distributionsForSync.Delete(t);
      distributionsForProj.Delete(t);
    }

    method PutMode(k: ProjectionModeKey, version: string)
      requires Valid()
      modifies Repr
      ensures Valid()
      ensures Modes() == old(Modes())[k := version] && Distributions() == old(Distributions())
    {
      hide RecordIndex2.Valid, RecordIndex3.Valid, FactoredMap.Valid;
      var _ := modesForSync.Put(k, version);
      var _ := modesForProj.Put(k, version);
    }

    method DeleteMode(k: ProjectionModeKey)
      requires Valid()
      modifies Repr
      ensures Valid()
      ensures Modes() == old(Modes()) - {k} && Distributions() == old(Distributions())
    {
      hide RecordIndex2.Valid, RecordIndex3.Valid, FactoredMap.Valid;
      var _ := modesForSync.Delete(k);
      var _ := modesForProj.Delete(k);
    }

    /** What the modes have for a resource, by destination; there is an entry just when some destination has a mode. */
    lemma ModesByResource(gr: GroupResource)
      requires Valid()
      ensures gr in modesForProj.outer <==> exists dest :: ProjectionModeKey(gr, dest) in Modes()
      ensures gr in modesForProj.outer ==> forall dest ::
                && (dest in modesForProj.outer[gr] <==> ProjectionModeKey(gr, dest) in Modes())
                && (dest in modesForProj.outer[gr] ==>
                      modesForProj.outer[gr][dest] == Modes()[ProjectionModeKey(gr, dest)])
    {
      hide RecordIndex2.Valid, RecordIndex3.Valid, Bijective;
      forall dest
        ensures Has(modesForProj.outer, gr, dest) <==> ProjectionModeKey(gr, dest) in Modes()
        ensures Has(modesForProj.outer, gr, dest) ==>
                  modesForProj.outer[gr][dest] == Modes()[ProjectionModeKey(gr, dest)]
      {
        assert modesForProj.keyDecomposer.factor(ProjectionModeKey(gr, dest)) == (gr, dest);
      }
      if gr in modesForProj.outer {
        assert modesForProj.outer[gr] != map[];
        var dest :| dest in modesForProj.outer[gr];
        assert Has(modesForProj.outer, gr, dest);
      }
    }

    /**
     What the record of a destination says about a source, the record of that source says about the
     destination, and both are found through their indices, level by level.
     */
    lemma UpThenDownLookup(dest: SinglePlacement, gr: GroupResource, obj: Obj, source: string)
      requires Valid()
      ensures var sync, proj := distributionsForSync, distributionsForProj;
              var up := dest in sync.records && Has(sync.records[dest], (gr, obj), source);
              var down := source in proj.records && Has3(proj.records[source], gr, obj, dest);
              && (up <==> down) && (up <==> (ProjectionModeKey(gr, dest), (source, obj)) in Distributions())
              && (up ==>
                    && dest in sync.outer && source in proj.outer
                    && sync.records[dest][(gr, obj)][source] == proj.records[source][gr][obj][dest])
    {
      hide FactoredMap.Valid, RecordIndex2.Valid, RecordIndex3.Valid, Bijective;
      var t: DistributionTuple<Obj> := (ProjectionModeKey(gr, dest), (source, obj));
      assert distributionsForSync.factoring.factor(t) == (dest, ((gr, obj), source));
      assert distributionsForProj.factoring.factor(t) == (source, (gr, (obj, dest)));
      distributionsForSync.EntryIs(t);
      distributionsForProj.EntryIs(t);
    }

    /** The sources that want an object at a destination, as the record of the destination has them. */
    method SourcesFor(dest: SinglePlacement, gr: GroupResource, obj: Obj)
      returns (sources: map<string, DistributionBits>)
      requires Valid()
      ensures forall source :: source in sources <==> (ProjectionModeKey(gr, dest), (source, obj)) in Distributions()
      ensures forall source | source in sources ::
                sources[source] == Distributions()[(ProjectionModeKey(gr, dest), (source, obj))]
    {
      hide Valid;
      sources := map[];
      if dest in distributionsForSync.records {
        sources := Inner(distributionsForSync.records[dest], (gr, obj));
      }
      forall source
        ensures source in sources <==> (ProjectionModeKey(gr, dest), (source, obj)) in Distributions()
        ensures source in sources ==> sources[source] == Distributions()[(ProjectionModeKey(gr, dest), (source, obj))]
      {
        UpThenDownLookup(dest, gr, obj, source);
        SameBits(dest, gr, obj, source);
      }
    }

    /**
     Back down from a source that wants the object at a destination: the record of the source is there, with
     the resource and the object, and tells all destinations of the object.
     */
    method DestinationsFor(source: string, gr: GroupResource, obj: Obj)
      returns (destinations: Option<map<SinglePlacement, DistributionBits>>)
      requires Valid()
      ensures destinations.Some? <==> exists dest :: (ProjectionModeKey(gr, dest), (source, obj)) in Distributions()
      ensures destinations.Some? ==> forall dest ::
                dest in destinations.value <==> (ProjectionModeKey(gr, dest), (source, obj)) in Distributions()
      ensures destinations.Some? ==> forall dest | dest in destinations.value ::
                destinations.value[dest] == Distributions()[(ProjectionModeKey(gr, dest), (source, obj))]
    {
      hide Valid;
      destinations := None;
      var records := distributionsForProj.records;
      if source in records && gr in records[source] && obj in records[source][gr] {
        destinations := Some(records[source][gr][obj]);
        NoEmptyLevel(source, gr, obj);
      }
      forall dest
        ensures (ProjectionModeKey(gr, dest), (source, obj)) in Distributions() <==>
                source in records && Has3(records[source], gr, obj, dest)
        ensures (ProjectionModeKey(gr, dest), (source, obj)) in Distributions() ==>
                  records[source][gr][obj][dest] == Distributions()[(ProjectionModeKey(gr, dest), (source, obj))]
      {
        UpThenDownLookup(dest, gr, obj, source);
        SameBits(dest, gr, obj, source);
      }
    }

    lemma NoEmptyLevel(source: string, gr: GroupResource, obj: Obj)
      requires Valid() && source in distributionsForProj.records && gr in distributionsForProj.records[source]
      requires obj in distributionsForProj.records[source][gr]
      ensures exists dest :: Has3(distributionsForProj.records[source], gr, obj, dest)
    {
      hide FactoredMap.Valid, RecordIndex2.Valid, Bijective, Represents;
      var inner := distributionsForProj.records[source][gr][obj];
      assert inner != map[];
      var dest :| dest in inner;
      assert Has3(distributionsForProj.records[source], gr, obj, dest);
    }

    lemma SameBits(dest: SinglePlacement, gr: GroupResource, obj: Obj, source: string)
      requires Valid()
      ensures var t := (ProjectionModeKey(gr, dest), (source, obj));
              t in Distributions() ==>
                && dest in distributionsForSync.records && Has(distributionsForSync.records[dest], (gr, obj), source)
                && source in distributionsForProj.records && Has3(distributionsForProj.records[source], gr, obj, dest)
                && distributionsForSync.records[dest][(gr, obj)][source] == Distributions()[t]
                && distributionsForProj.records[source][gr][obj][dest] == Distributions()[t]
    {
      hide FactoredMap.Valid, RecordIndex2.Valid, RecordIndex3.Valid, Bijective;
      var t: DistributionTuple<Obj> := (ProjectionModeKey(gr, dest), (source, obj));
      assert distributionsForSync.factoring.factor(t) == (dest, ((gr, obj), source));
      assert distributionsForProj.factoring.factor(t) == (source, (gr, (obj, dest)));
      distributionsForSync.EntryIs(t);
      distributionsForProj.EntryIs(t);
    }
  }
}
