/**
 The query plan of the binding organizer (pkg/placement/binding-organizer.go). The tuples
 (EdgePlacement, object, destination) -> details are grouped by everything but the name of the
 EdgePlacement and summarized, which feeds the distribution tables; the summaries are grouped
 again by resource and destination to pick API versions, which feeds the mode tables.
 */
module BindingOrganizer {
  import opened Changes
  import opened FactoredMaps
  import opened IndexedSets
  import opened PlacementTypes
  import opened WorkloadProjector

  /** The bits of a group: each is set if some member has it set. */
  ghost function OrBits(group: map<string, WorkloadPartDetails>): DistributionBits {
    DistributionBits(
      exists e :: e in group && group[e].returnSingletonState,
      exists e :: e in group && group[e].createOnly)
  }

  ghost predicate VersionOf(version: string, group: map<string, WorkloadPartDetails>) {
    exists e :: e in group && group[e].apiVersion == version
  }

  /** Summarizes a group, visited in any order; the version is one that the group has. */
  method DetailsSansEP(versions: map<string, WorkloadPartDetails>) returns (ans: Option<WorkloadPartDetails>)
    ensures ans.Some? <==> versions != map[]
    ensures ans.Some? ==>
              && DistributionBits(ans.value.returnSingletonState, ans.value.createOnly) == OrBits(versions)
              && VersionOf(ans.value.apiVersion, versions)
  {
    if versions == map[] {
      return None;
    }
    var eps := VisitOrder(versions.Keys);
    assert forall e :: e in eps <==> e in Elements(eps);
    var sum := WorkloadPartDetails("", false, false);
    for i := 0 to |eps|
      invariant sum.returnSingletonState <==> exists e :: e in eps[..i] && versions[e].returnSingletonState
      invariant sum.createOnly <==> exists e :: e in eps[..i] && versions[e].createOnly
      invariant i > 0 ==> VersionOf(sum.apiVersion, versions)
    {
      var d := versions[eps[i]];
      assert eps[..i + 1] == eps[..i] + [eps[i]];
      sum := WorkloadPartDetails(d.apiVersion, sum.returnSingletonState || d.returnSingletonState,
                                 sum.createOnly || d.createOnly);
    }
    assert eps[..|eps|] == eps;
    assert |eps| > 0 by {
      var e :| e in versions;
      assert e in eps;
    }
    return Some(sum);
  }

  /** Picks a version that the group has; `agreed` tells whether there was no other to pick. */
  method PickThe1<B(==)>(problem: map<B, string>) returns (solution: string, agreed: bool)
    requires problem != map[]
    ensures solution in problem.Values
    ensures agreed <==> forall b | b in problem :: problem[b] == solution
  {
    var bs := VisitOrder(problem.Keys);
    assert forall b :: b in bs <==> b in Elements(bs);
    var versions := {};
    solution := "";
    for i := 0 to |bs|
      invariant forall b | b in bs[..i] :: problem[b] in versions
      invariant forall v | v in versions :: v in problem.Values
      invariant i > 0 ==> solution in versions
    {
      assert bs[..i + 1] == bs[..i] + [bs[i]];
      solution := problem[bs[i]];
      versions := versions + {solution};
    }
    assert bs[..|bs|] == bs;
    assert |bs| > 0 by {
      var b :| b in problem;
      assert b in bs;
    }
    agreed := |versions| == 1;
    OnlyMember(versions, solution);
  }

  lemma OnlyMember<T>(s: set<T>, x: T)
    requires x in s
    ensures |s| == 1 <==> forall y | y in s :: y == x
  {
    assert |s - {x}| == |s| - 1;
    if forall y | y in s :: y == x {
      assert s == {x};
    }
  }

  // ----- What the tables of one scope must say, in terms of the tuples received -----

  type Full<Obj(==)> = Nested<DistributionTuple<Obj>, string, WorkloadPartDetails>

  /** Distributions: one for each group, with the bits of the group. */
  ghost predicate Summarizes<Obj>(full: Full<Obj>, dist: map<DistributionTuple<Obj>, DistributionBits>) {
    dist.Keys == full.Keys && forall t | t in full :: dist[t] == OrBits(full[t])
  }

  /** Versions: one for each group, taken from the group. */
  ghost predicate Versions<Obj>(full: Full<Obj>, versions: map<DistributionTuple<Obj>, string>) {
    versions.Keys == full.Keys && forall t | t in full :: VersionOf(versions[t], full[t])
  }

  /**
   Modes: one for each resource and destination that some object has, with a version that one of those
   objects has.
   */
  ghost predicate Picks<Obj>(versions: Nested<ProjectionModeKey, (string, Obj), string>,
                             modes: map<ProjectionModeKey, string>) {
    modes.Keys == versions.Keys && forall k | k in versions :: modes[k] in versions[k].Values
  }

  lemma GroupPutKeeps<Obj>(full: Full<Obj>, dist: map<DistributionTuple<Obj>, DistributionBits>,
                           versions: map<DistributionTuple<Obj>, string>, t: DistributionTuple<Obj>,
                           group: map<string, WorkloadPartDetails>, version: string)
    requires Summarizes(full, dist) && Versions(full, versions) && VersionOf(version, group)
    ensures Summarizes(full[t := group], dist[t := OrBits(group)])
    ensures Versions(full[t := group], versions[t := version])
  {
  }

  lemma GroupDeleteKeeps<Obj>(full: Full<Obj>, dist: map<DistributionTuple<Obj>, DistributionBits>,
                              versions: map<DistributionTuple<Obj>, string>, t: DistributionTuple<Obj>)
    requires Summarizes(full, dist) && Versions(full, versions)
    ensures Summarizes(full - {t}, dist - {t}) && Versions(full - {t}, versions - {t})
    ensures t in full ==> t in versions
  {
  }

  lemma VersionGrouped<Obj(!new)>(versions: map<DistributionTuple<Obj>, string>,
                                  grouped: Nested<ProjectionModeKey, (string, Obj), string>, t: DistributionTuple<Obj>)
    requires Represents(PairFactorer(), grouped, versions)
    ensures t in versions <==> Has(grouped, t.0, t.1)
    ensures t in versions ==> grouped[t.0][t.1] == versions[t]
  {
    assert PairFactorer<ProjectionModeKey, (string, Obj)>().factor(t) == t;
  }

  /** Some tuple about the resource and destination has this version. */
  ghost predicate Contributes<Obj(!new)>(contents: map<WhatWhereFullKey<Obj>, WorkloadPartDetails>,
                                         k: ProjectionModeKey, version: string)
  {
    exists ep: ExternalName, o: Obj ::
      (ep, (k.gr, o), k.destination) in contents && contents[(ep, (k.gr, o), k.destination)].apiVersion == version
  }

  /**
   The modes and the distributions are about the same resources and destinations, in versions that are
   contributed.
   */
  ghost predicate ModesMatch<Obj(!new)>(contents: map<WhatWhereFullKey<Obj>, WorkloadPartDetails>,
                                        dist: map<DistributionTuple<Obj>, DistributionBits>,
                                        modes: map<ProjectionModeKey, string>)
  {
    && (forall t | t in dist :: t.0 in modes)
    && (forall k | k in modes :: exists source: string, o: Obj :: (k, (source, o)) in dist)
    && (forall k | k in modes :: Contributes(contents, k, modes[k]))
  }

  lemma PickedAreContributed<Obj(!new)>(full: Full<Obj>, contents: map<WhatWhereFullKey<Obj>, WorkloadPartDetails>,
                                        dist: map<DistributionTuple<Obj>, DistributionBits>,
                                        versions: map<DistributionTuple<Obj>, string>,
                                        grouped: Nested<ProjectionModeKey, (string, Obj), string>,
                                        modes: map<ProjectionModeKey, string>)
    requires Represents(FactorWhatWhereFullKey<Obj>(), full, contents) && NoneEmpty(grouped)
    requires Represents(PairFactorer(), grouped, versions)
    requires Summarizes(full, dist) && Versions(full, versions) && Picks(grouped, modes)
    ensures ModesMatch(contents, dist, modes)
  {
    hide Represents, NoneEmpty, Summarizes, Versions, Picks, Contributes;
    forall t | t in dist
      ensures t.0 in modes
    {
      DistributionHasMode(full, dist, versions, grouped, modes, t);
    }
    forall k | k in modes
      ensures exists source: string, o: Obj :: (k, (source, o)) in dist
      ensures Contributes(contents, k, modes[k])
    {
      ModeIsContributed(full, contents, dist, versions, grouped, modes, k);
    }
  }

  lemma DistributionHasMode<Obj(!new)>(full: Full<Obj>, dist: map<DistributionTuple<Obj>, DistributionBits>,
                                       versions: map<DistributionTuple<Obj>, string>,
                                       grouped: Nested<ProjectionModeKey, (string, Obj), string>,
                                       modes: map<ProjectionModeKey, string>, t: DistributionTuple<Obj>)
    requires Represents(PairFactorer(), grouped, versions)
    requires Summarizes(full, dist) && Versions(full, versions) && Picks(grouped, modes) && t in dist
    ensures t.0 in modes
  {
    VersionGrouped(versions, grouped, t);
  }

  lemma ModeIsContributed<Obj(!new)>(full: Full<Obj>, contents: map<WhatWhereFullKey<Obj>, WorkloadPartDetails>,
                                     dist: map<DistributionTuple<Obj>, DistributionBits>,
                                     versions: map<DistributionTuple<Obj>, string>,
                                     grouped: Nested<ProjectionModeKey, (string, Obj), string>,
                                     modes: map<ProjectionModeKey, string>, k: ProjectionModeKey)
    requires Represents(FactorWhatWhereFullKey<Obj>(), full, contents)
    requires Represents(PairFactorer(), grouped, versions)
    requires Summarizes(full, dist) && Versions(full, versions) && Picks(grouped, modes) && k in modes
    ensures exists source: string, o: Obj :: (k, (source, o)) in dist
    ensures Contributes(contents, k, modes[k])
  {
    var so :| so in grouped[k] && grouped[k][so] == modes[k];
    var t: DistributionTuple<Obj> := (k, so);
    VersionGrouped(versions, grouped, t);
    assert t == (k, (so.0, so.1)) && t in dist;
    var e := VersionSource(full[t], versions[t]);
    EntryOf(full, contents, t, e);
    var ep := ExternalName(so.0, e);
    assert (ep, (k.gr, so.1), k.destination) in contents;
  }

  lemma VersionSource(group: map<string, WorkloadPartDetails>, version: string) returns (e: string)
    requires VersionOf(version, group)
    ensures e in group && group[e].apiVersion == version
  {
    e :| e in group && group[e].apiVersion == version;
  }

  /** The full tuple that an entry of a group stands for. */
  lemma EntryOf<Obj(!new)>(full: Full<Obj>, contents: map<WhatWhereFullKey<Obj>, WorkloadPartDetails>,
                           t: DistributionTuple<Obj>, e: string)
    requires Represents(FactorWhatWhereFullKey<Obj>(), full, contents) && t in full && e in full[t]
    ensures var key := (ExternalName(t.1.0, e), (t.0.gr, t.1.1), t.0.destination);
            key in contents && contents[key] == full[t][e]
  {
    var key := (ExternalName(t.1.0, e), (t.0.gr, t.1.1), t.0.destination);
    assert FactorWhatWhereFullKey<Obj>().factor(key) == (t, e);
  }

  /** The part of the organizer, and of the projector's tables, for one scope. */
  class Scope<Obj(==, !new)> {
    const whatWhereFull: FactoredMap<WhatWhereFullKey<Obj>, DistributionTuple<Obj>, string, WorkloadPartDetails>
    const aggregate: FactoredMap<DistributionTuple<Obj>, ProjectionModeKey, (string, Obj), string>
    const tables: ScopeTables<Obj>

    ghost const Repr: set<object> := {whatWhereFull, aggregate} + tables.Repr

    ghost predicate Valid()
      reads Repr
    {
      && (whatWhereFull as object) != aggregate && {whatWhereFull as object, aggregate} !! tables.Repr
      && whatWhereFull.Valid() && whatWhereFull.keyDecomposer == FactorWhatWhereFullKey()
      && aggregate.Valid() && aggregate.keyDecomposer == PairFactorer()
      && tables.Valid()
      && Summarizes(whatWhereFull.outer, tables.Distributions())
      && Versions(whatWhereFull.outer, aggregate.contents)
      && Picks(aggregate.outer, tables.Modes())
    }

    /** In every state, also when entries are missing from the full table. */
    lemma ModesAlwaysMatch()
      requires Valid()
      ensures ModesMatch(whatWhereFull.contents, tables.Distributions(), tables.Modes())
    {
      hide ScopeTables.Valid, Bijective, Represents, Summarizes, Versions, Picks, NoneEmpty, ModesMatch;
      PickedAreContributed(whatWhereFull.outer, whatWhereFull.contents, tables.Distributions(), aggregate.contents,
                           aggregate.outer,
                           tables.Modes());
    }

    /** Where all tuples about a resource and destination agree on the version, that is the version. */
    lemma AgreedVersion(k: ProjectionModeKey, version: string)
      requires Valid() && k in tables.Modes()
      requires forall ep: ExternalName, o: Obj | (ep, (k.gr, o), k.destination) in whatWhereFull.contents ::
                 whatWhereFull.contents[(ep, (k.gr, o), k.destination)].apiVersion == version
      ensures tables.Modes()[k] == version
    {
      hide Valid;
      ModesAlwaysMatch();
    }

    /**
     The version in which the objects of a resource are copied from their sources: there is one for every
     resource that some source distributes, and a tuple about that resource has it.
     */
    method VersionForProj(gr: GroupResource) returns (version: Option<string>)
      requires Valid()
      ensures version.Some? <==> exists dest, source: string, o: Obj ::
                (ProjectionModeKey(gr, dest), (source, o)) in tables.Distributions()
      ensures version.Some? ==> exists ep: ExternalName, o: Obj, dest ::
                && (ep, (gr, o), dest) in whatWhereFull.contents
                && whatWhereFull.contents[(ep, (gr, o), dest)].apiVersion == version.value
    {
      hide ScopeTables.Valid, FactoredMap.Valid, Summarizes, Versions, Picks;
      ModesAlwaysMatch();
      tables.ModesByResource(gr);
      if gr !in tables.modesForProj.outer {
        return None;
      }
      var problem := tables.modesForProj.outer[gr];
      ghost var some :| ProjectionModeKey(gr, some) in tables.Modes();
      assert some in problem;
      var solution, _ := PickThe1(problem);
      ghost var dest :| dest in problem && problem[dest] == solution;
      assert Contributes(whatWhereFull.contents, ProjectionModeKey(gr, dest), solution);
      return Some(solution);
    }

    constructor ()
      ensures Valid() && fresh(Repr) && whatWhereFull.contents == map[]
    {
      hide FactoredMap.Valid, ScopeTables.Valid, Bijective, FactorDistributionTupleForSync,
           FactorDistributionTupleForProj, FactorProjectionModeKeyForSyncer, FactorProjectionModeKeyForProj,
           FactorWhatWhereFullKey, FactorUpsyncTuple;
      FactorersAreBijective<Obj>();
      PairFactorerIsBijective<ProjectionModeKey, (string, Obj)>();
      whatWhereFull := new FactoredMap(FactorWhatWhereFullKey());
      aggregate := new FactoredMap(PairFactorer());
      tables := new ScopeTables();
    }

    method Put(key: WhatWhereFullKey<Obj>, val: WorkloadPartDetails)
      requires Valid()
      modifies Repr
      ensures Valid() && whatWhereFull.contents == old(whatWhereFull.contents)[key := val]
    {
      hide FactoredMap.Valid, ScopeTables.Valid, Summarizes, Versions, Picks, FactorWhatWhereFullKey;
      var n := whatWhereFull.Put(key, val);
      OnGroup(n.grouped, old(whatWhereFull.outer));
    }

    method Delete(key: WhatWhereFullKey<Obj>)
      requires Valid()
      modifies Repr
      ensures Valid() && whatWhereFull.contents == old(whatWhereFull.contents) - {key}
    {
      hide FactoredMap.Valid, ScopeTables.Valid, Summarizes, Versions, Picks, FactorWhatWhereFullKey;
      var n := whatWhereFull.Delete(key);
      if n.Some? {
        OnGroup(n.value.grouped, old(whatWhereFull.outer));
      }
    }

    /** Brings the tables up to date with one changed group. */
    method OnGroup(change: MapChange<DistributionTuple<Obj>, map<string, WorkloadPartDetails>>, ghost was: Full<Obj>)
      requires (whatWhereFull as object) != aggregate && {whatWhereFull as object, aggregate} !! tables.Repr
      requires aggregate.Valid() && aggregate.keyDecomposer == PairFactorer() && tables.Valid()
      requires Summarizes(was, tables.Distributions()) && Versions(was, aggregate.contents)
               && Picks(aggregate.outer, tables.Modes())
      requires change.Put? ==> change.val != map[]
      requires change.Delete? ==> change.key in was
      modifies aggregate, tables.Repr
      ensures aggregate.Valid() && tables.Valid()
      ensures Summarizes(After(was, change), tables.Distributions())
      ensures Versions(After(was, change), aggregate.contents)
      ensures Picks(aggregate.outer, tables.Modes())
    {
      hide FactoredMap.Valid, ScopeTables.Valid, Picks, Summarizes, Versions, OrBits, VersionOf;
      match change {
        case Put(t, group) =>
          var details := DetailsSansEP(group);
          var d := details.value;
          GroupPutKeeps(was, tables.Distributions(), aggregate.contents, t, group, d.apiVersion);
          tables.PutDistribution(t, DistributionBits(d.returnSingletonState, d.createOnly));
          var n := aggregate.Put(t, d.apiVersion);
          OnVersions(n.grouped, old(aggregate.outer));
        case Delete(t) =>
          GroupDeleteKeeps(was, tables.Distributions(), aggregate.contents, t);
          tables.DeleteDistribution(t);
          var n := aggregate.Delete(t);
          OnVersions(n.value.grouped, old(aggregate.outer));
      }
    }

    /** Picks again for one resource and destination. */
    method OnVersions(change: MapChange<ProjectionModeKey, map<(string, Obj), string>>,
                      ghost was: Nested<ProjectionModeKey, (string, Obj), string>)
      requires tables.Valid() && Picks(was, tables.Modes())
      requires change.Put? ==> change.val != map[]
      modifies tables.Repr
      ensures tables.Valid() && Picks(After(was, change), tables.Modes())
      ensures tables.Distributions() == old(tables.Distributions())
    {
      hide ScopeTables.Valid;
      match change {
        case Put(k, problem) =>
          var version, _ := PickThe1(problem);
          tables.PutMode(k, version);
        case Delete(k) =>
          tables.DeleteMode(k);
      }
    }
  }

  type DownsyncTuple = (ExternalName, WorkloadPartID, SinglePlacement)
  type UpsyncTuple = (ExternalName, UpsyncSet, SinglePlacement)

  function NamespacedKey(tup: DownsyncTuple): WhatWhereFullKey<NamespacedName> {
    (tup.0, (tup.1.gr, (tup.1.namespace, tup.1.name)), tup.2)
  }

  function ClusterKey(tup: DownsyncTuple): WhatWhereFullKey<string> {
    (tup.0, (tup.1.gr, tup.1.name), tup.2)
  }

  lemma UpsyncFactorersAreBijective()
    ensures Bijective(FactorUpsyncTuple()) && Bijective(PairFactorer<SinglePlacement, UpsyncSet>())
  {
  }

  /** The organizer and the tables of the projector that it writes to. */
  class Organizer {
    const goesToMailbox: GroupResource -> bool
    const namespaced: Scope<NamespacedName>
    const clusterScoped: Scope<string>
    const upsyncsFull: IndexedSet<UpsyncTuple, (SinglePlacement, UpsyncSet), ExternalName>
    /** The projector's relation between destinations and what to upsync from them. */
    const upsyncs: IndexedSet<(SinglePlacement, UpsyncSet), SinglePlacement, UpsyncSet>
    var perSourceCluster: set<string>

    ghost function Repr(): set<object> {
      {this, upsyncsFull, upsyncs} + namespaced.Repr + clusterScoped.Repr
    }

    ghost predicate Valid()
      reads Repr()
    {
      && (upsyncsFull as object) != upsyncs
      && {this, upsyncsFull as object, upsyncs} !! namespaced.Repr !! clusterScoped.Repr
      && namespaced.Valid() && clusterScoped.Valid()
      && upsyncsFull.Valid() && upsyncsFull.factoring == FactorUpsyncTuple()
      && upsyncs.Valid() && upsyncs.factoring == PairFactorer()
      && upsyncs.contents == upsyncsFull.rep.Keys
      && (forall k | k in namespaced.whatWhereFull.contents :: k.0.cluster in perSourceCluster)
      && (forall k | k in clusterScoped.whatWhereFull.contents :: k.0.cluster in perSourceCluster)
    }

    constructor (goesToMailbox: GroupResource -> bool)
      ensures Valid() && fresh(Repr()) && this.goesToMailbox == goesToMailbox
      ensures namespaced.whatWhereFull.contents == map[] && clusterScoped.whatWhereFull.contents == map[]
      ensures upsyncsFull.contents == {}
    {
      hide Scope.Valid, IndexedSet.Valid, Bijective, FactorUpsyncTuple, PairFactorer;
      UpsyncFactorersAreBijective();
      this.goesToMailbox := goesToMailbox;
      namespaced := new Scope();
      clusterScoped := new Scope();
      upsyncsFull := new IndexedSet(FactorUpsyncTuple());
      upsyncs := new IndexedSet(PairFactorer());
      perSourceCluster := {};
    }

    method Put(tup: DownsyncTuple, val: WorkloadPartDetails)
      requires Valid()
      modifies this, namespaced.Repr, clusterScoped.Repr
      ensures Valid() && upsyncsFull.contents == old(upsyncsFull.contents)
      ensures namespaced.whatWhereFull.contents ==
              if goesToMailbox(tup.1.gr) && tup.1.namespace != ""
              then old(namespaced.whatWhereFull.contents)[NamespacedKey(tup) := val]
              else old(namespaced.whatWhereFull.contents)
      ensures clusterScoped.whatWhereFull.contents ==
              if goesToMailbox(tup.1.gr) && tup.1.namespace == ""
              then old(clusterScoped.whatWhereFull.contents)[ClusterKey(tup) := val]
              else old(clusterScoped.whatWhereFull.contents)
    {
      hide Scope.Valid, IndexedSet.Valid, FactorUpsyncTuple, PairFactorer;
      if !goesToMailbox(tup.1.gr) {
        return;
      }
      perSourceCluster := perSourceCluster + {tup.0.cluster};
      if |tup.1.namespace| > 0 {
        namespaced.Put(NamespacedKey(tup), val);
      } else {
        clusterScoped.Put(ClusterKey(tup), val);
      }
    }

    /** The cluster-scoped table is told too, whatever the namespace is. */
    method Delete(tup: DownsyncTuple)
      requires Valid()
      modifies namespaced.Repr, clusterScoped.Repr
      ensures Valid() && upsyncsFull.contents == old(upsyncsFull.contents)
      ensures namespaced.whatWhereFull.contents ==
              if goesToMailbox(tup.1.gr) && tup.1.namespace != ""
              then old(namespaced.whatWhereFull.contents) - {NamespacedKey(tup)}
              else old(namespaced.whatWhereFull.contents)
      ensures clusterScoped.whatWhereFull.contents ==
              if goesToMailbox(tup.1.gr)
              then old(clusterScoped.whatWhereFull.contents) - {ClusterKey(tup)}
              else old(clusterScoped.whatWhereFull.contents)
    {
      hide Scope.Valid, IndexedSet.Valid, FactorUpsyncTuple, PairFactorer;
      if !goesToMailbox(tup.1.gr) {
        return;
      }
      if tup.0.cluster !in perSourceCluster {
        assert NamespacedKey(tup) !in namespaced.whatWhereFull.contents;
        assert ClusterKey(tup) !in clusterScoped.whatWhereFull.contents;
        return;
      }
      if |tup.1.namespace| > 0 {
        namespaced.Delete(NamespacedKey(tup));
      }
      clusterScoped.Delete(ClusterKey(tup));
    }

    method ChangeUpsync(c: SetChange<UpsyncTuple>)
      requires Valid()
      modifies upsyncsFull, upsyncs
      ensures Valid() && upsyncsFull.contents == Changed(old(upsyncsFull.contents), c)
      ensures namespaced.whatWhereFull.contents == old(namespaced.whatWhereFull.contents)
      ensures clusterScoped.whatWhereFull.contents == old(clusterScoped.whatWhereFull.contents)
    {
      hide Scope.Valid, IndexedSet.Valid, FactorUpsyncTuple, PairFactorer;
      var changed, heard;
      match c {
        case Add(tup) => changed, heard := upsyncsFull.Add(tup);
        case Remove(tup) => changed, heard := upsyncsFull.Remove(tup);
      }
      if heard != [] {
        var news;
        match heard[0] {
          case Add(t) => changed, news := upsyncs.Add(t);
          case Remove(t) => changed, news := upsyncs.Remove(t);
        }
      }
    }
  }
}
