/**
 The query that the binding organizer documents (pkg/placement/binding-organizer.go, comment on
 simpleBindingOrganizer), stated outright over the latest "what" and "where" of every
 EdgePlacement, and what tables that have lost some entries answer to it.
 */
module Query {
  import opened Changes
  import opened FactoredMaps
  import opened Joins
  import opened PlacementTypes
  import opened PlacementHistory
  import opened BindingOrganizer
  import opened SetBinder
  import opened SyncerConfig

  /** Which workload objects belong to a scope, and how they are named there. */
  datatype ScopeKind<!Obj> = ScopeKind(partOf: (GroupResource, Obj) -> WorkloadPartID, holds: Obj -> bool)

  /** What is asked for: within a scope, by resources that go to the mailbox, the latest word on every EdgePlacement. */
  datatype Demand<!Obj> = Demand(kind: ScopeKind<Obj>, goes: Mailbox, pc: PerCluster)

  function Namespaced(goes: Mailbox, pc: PerCluster): Demand<NamespacedName> {
    Demand(
      ScopeKind(
        (gr: GroupResource, o: NamespacedName) => WorkloadPartID(gr, o.0, o.1),
        (o: NamespacedName) => o.0 != ""),
      goes, pc)
  }

  function ClusterScoped(goes: Mailbox, pc: PerCluster): Demand<string> {
    Demand(ScopeKind((gr: GroupResource, o: string) => WorkloadPartID(gr, "", o), (_: string) => true), goes, pc)
  }

  /** The EdgePlacement of this name, in the space of the object, calls for the object to go to the destination. */
  ghost predicate Calls<Obj>(q: Demand<Obj>, t: DistributionTuple<Obj>, epName: string) {
    var p := At(q.pc, ExternalName(t.1.0, epName));
    && q.kind.holds(t.1.1) && q.goes(t.0.gr)
    && q.kind.partOf(t.0.gr, t.1.1) in p.downsync && t.0.destination in p.where
  }

  ghost function DetailsOf<Obj>(q: Demand<Obj>, t: DistributionTuple<Obj>, epName: string): WorkloadPartDetails
    requires Calls(q, t, epName)
  {
    At(q.pc, ExternalName(t.1.0, epName)).downsync[q.kind.partOf(t.0.gr, t.1.1)]
  }

  /** The calls that the tables do not know of. */
  type Gone<!Obj(==)> = iset<(DistributionTuple<Obj>, string)>

  ghost predicate Serves<Obj>(q: Demand<Obj>, gone: Gone<Obj>, t: DistributionTuple<Obj>, epName: string) {
    Calls(q, t, epName) && (t, epName) !in gone
  }

  /**
   common = WhatWheres.GroupBy(all but epName).Aggregate(OR), the distributions being its bits; over
   the calls that are not gone.
   */
  ghost predicate DistributionsBut<Obj(!new)>(q: Demand<Obj>, gone: Gone<Obj>,
                                              dist: map<DistributionTuple<Obj>, DistributionBits>)
  {
    && (forall t :: t in dist <==> exists e :: Serves(q, gone, t, e))
    && (forall t | t in dist ::
          && (dist[t].returnSingletonState <==> exists e ::
               Serves(q, gone, t, e) && DetailsOf(q, t, e).returnSingletonState)
          && (dist[t].createOnly <==> exists e :: Serves(q, gone, t, e) && DetailsOf(q, t, e).createOnly))
  }

  /**
   ProjectionModes = common.GroupBy(GroupResource, destination).Aggregate(PickVersion), for some way
   of picking; over the calls that are not gone.
   */
  ghost predicate ModesBut<Obj(!new)>(q: Demand<Obj>, gone: Gone<Obj>, modes: map<ProjectionModeKey, string>) {
    && (forall k :: k in modes <==> exists source: string, o: Obj, e :: Serves(q, gone, (k, (source, o)), e))
    && (forall k | k in modes :: exists source: string, o: Obj, e ::
          Serves(q, gone, (k, (source, o)), e) && DetailsOf(q, (k, (source, o)), e).apiVersion == modes[k])
  }

  /** The distributions answer the query. */
  ghost predicate AnswersDistributions<Obj(!new)>(q: Demand<Obj>, dist: map<DistributionTuple<Obj>, DistributionBits>) {
    DistributionsBut(q, iset{}, dist)
  }

  /** The modes answer the query. */
  ghost predicate AnswersModes<Obj(!new)>(q: Demand<Obj>, modes: map<ProjectionModeKey, string>) {
    ModesBut(q, iset{}, modes)
  }

  /** upsyncs = WhatWheres.ProjectOut((epCluster, epName)). */
  ghost predicate AnswersUpsyncs(pc: PerCluster, upsyncs: set<(SinglePlacement, UpsyncSet)>) {
    forall sp, u :: (sp, u) in upsyncs <==> exists ep :: u in At(pc, ep).upsync && sp in At(pc, ep).where
  }

  // ----- When does it matter that calls are gone? -----

  /** For every call that is gone, others give the object a distribution with the same bits. */
  ghost predicate MadeUpFor<Obj(!new)>(q: Demand<Obj>, gone: Gone<Obj>) {
    forall t, e | Calls(q, t, e) && (t, e) in gone ::
      && (exists e' :: Serves(q, gone, t, e'))
      && (DetailsOf(q, t, e).returnSingletonState ==>
            exists e' :: Serves(q, gone, t, e') && DetailsOf(q, t, e').returnSingletonState)
      && (DetailsOf(q, t, e).createOnly ==> exists e' :: Serves(q, gone, t, e') && DetailsOf(q, t, e').createOnly)
  }

  /** For every call that is gone, others give the resource a version at the destination. */
  ghost predicate ResourceMadeUpFor<Obj(!new)>(q: Demand<Obj>, gone: Gone<Obj>) {
    forall t, e | Calls(q, t, e) && (t, e) in gone ::
      exists source: string, o: Obj, e' :: Serves(q, gone, (t.0, (source, o)), e')
  }

  /** The distributions answer the query exactly when what is gone is made up for. */
  lemma LossMatters<Obj(!new)>(q: Demand<Obj>, gone: Gone<Obj>, dist: map<DistributionTuple<Obj>, DistributionBits>)
    requires DistributionsBut(q, gone, dist)
    ensures AnswersDistributions(q, dist) <==> MadeUpFor(q, gone)
  {
    hide Calls, DetailsOf;
    if AnswersDistributions(q, dist) {
      forall t, e | Calls(q, t, e) && (t, e) in gone
        ensures exists e' :: Serves(q, gone, t, e')
        ensures DetailsOf(q, t, e).returnSingletonState ==>
                  exists e' :: Serves(q, gone, t, e') && DetailsOf(q, t, e').returnSingletonState
        ensures DetailsOf(q, t, e).createOnly ==> exists e' :: Serves(q, gone, t, e') && DetailsOf(q, t, e').createOnly
      {
        assert Serves(q, iset{}, t, e);
        assert t in dist;
      }
    }
    if MadeUpFor(q, gone) {
      MadeUpAnswers(q, gone, dist);
    }
  }

  lemma MadeUpAnswers<Obj(!new)>(q: Demand<Obj>, gone: Gone<Obj>, dist: map<DistributionTuple<Obj>, DistributionBits>)
    requires DistributionsBut(q, gone, dist) && MadeUpFor(q, gone)
    ensures AnswersDistributions(q, dist)
  {
    hide Calls, DetailsOf;
    forall t
      ensures t in dist <==> exists e :: Serves(q, iset{}, t, e)
    {
      if e :| Serves(q, gone, t, e) {
        assert Serves(q, iset{}, t, e);
      }
      if e :| Serves(q, iset{}, t, e) {
        assert Serves(q, gone, t, e) || (t, e) in gone;
      }
    }
    forall t | t in dist
      ensures dist[t].returnSingletonState <==> exists e ::
                Serves(q, iset{}, t, e) && DetailsOf(q, t, e).returnSingletonState
      ensures dist[t].createOnly <==> exists e :: Serves(q, iset{}, t, e) && DetailsOf(q, t, e).createOnly
    {
      if e :| Serves(q, gone, t, e) && DetailsOf(q, t, e).returnSingletonState {
        assert Serves(q, iset{}, t, e);
      }
      if e :| Serves(q, gone, t, e) && DetailsOf(q, t, e).createOnly {
        assert Serves(q, iset{}, t, e);
      }
      if e :| Serves(q, iset{}, t, e) && DetailsOf(q, t, e).returnSingletonState {
        assert Serves(q, gone, t, e) || (t, e) in gone;
      }
      if e :| Serves(q, iset{}, t, e) && DetailsOf(q, t, e).createOnly {
        assert Serves(q, gone, t, e) || (t, e) in gone;
      }
    }
  }

  /** The modes answer the query exactly when what is gone is made up for as far as resources go. */
  lemma LossMattersForModes<Obj(!new)>(q: Demand<Obj>, gone: Gone<Obj>, modes: map<ProjectionModeKey, string>)
    requires ModesBut(q, gone, modes)
    ensures AnswersModes(q, modes) <==> ResourceMadeUpFor(q, gone)
  {
    hide Calls, DetailsOf;
    forall k
      ensures k in modes ==> exists source: string, o: Obj, e ::
                Serves(q, iset{}, (k, (source, o)), e) && DetailsOf(q, (k, (source, o)), e).apiVersion == modes[k]
    {
      if k in modes {
        var source: string, o: Obj, e :|
          Serves(q, gone, (k, (source, o)), e) && DetailsOf(q, (k, (source, o)), e).apiVersion == modes[k];
        assert Serves(q, iset{}, (k, (source, o)), e);
      }
    }
    if AnswersModes(q, modes) {
      forall t, e | Calls(q, t, e) && (t, e) in gone
        ensures exists source: string, o: Obj, e' :: Serves(q, gone, (t.0, (source, o)), e')
      {
        assert t == (t.0, (t.1.0, t.1.1));
        assert Serves(q, iset{}, (t.0, (t.1.0, t.1.1)), e);
        assert t.0 in modes;
      }
    }
    if ResourceMadeUpFor(q, gone) {
      forall k, source: string, o: Obj, e | Serves(q, iset{}, (k, (source, o)), e)
        ensures k in modes
      {
        var t: DistributionTuple<Obj> := (k, (source, o));
        if (t, e) in gone {
          var source': string, o': Obj, e' :| Serves(q, gone, (t.0, (source', o')), e');
        } else {
          assert Serves(q, gone, (k, (source, o)), e);
        }
      }
    }
  }

  /** Only calls count. */
  lemma SameGone<Obj(!new)>(q: Demand<Obj>, gone: Gone<Obj>, gone': Gone<Obj>,
                            dist: map<DistributionTuple<Obj>, DistributionBits>, modes: map<ProjectionModeKey, string>)
    requires forall t, e | Calls(q, t, e) :: (t, e) in gone <==> (t, e) in gone'
    ensures forall t, e :: Serves(q, gone, t, e) <==> Serves(q, gone', t, e)
    ensures DistributionsBut(q, gone, dist) ==> DistributionsBut(q, gone', dist)
    ensures ModesBut(q, gone, modes) ==> ModesBut(q, gone', modes)
  {
    hide Calls, DetailsOf;
    forall t, e
      ensures Serves(q, gone, t, e) <==> Serves(q, gone', t, e)
    {
      assert Calls(q, t, e) ==> ((t, e) in gone <==> (t, e) in gone');
    }
    hide Serves;
  }

  // ----- From the joined tuples to the full tables -----

  ghost predicate FullBut<Obj(!new)>(q: Demand<Obj>, gone: Gone<Obj>,
                                     full: map<WhatWhereFullKey<Obj>, WorkloadPartDetails>) {
    forall t: DistributionTuple<Obj>, e ::
      var k := FactorWhatWhereFullKey<Obj>().unfactor(t, e);
      && (k in full <==> Serves(q, gone, t, e))
      && (k in full ==> full[k] == DetailsOf(q, t, e))
  }

  lemma NamespacedFullIs(goes: Mailbox, pc: PerCluster, left: DownsyncLeft, right: set<(ExternalName, SinglePlacement)>,
                         j: Tuples, ns: map<WhatWhereFullKey<NamespacedName>, WorkloadPartDetails>)
    requires IsJoin(left, right, j) && DownsyncInput(pc, left) && WhereInput(pc, right)
    requires RoutedNamespaced(goes, j, ns)
    ensures FullBut(Namespaced(goes, pc), iset{}, ns)
  {
    var q := Namespaced(goes, pc);
    forall t: DistributionTuple<NamespacedName>, e
      ensures var k := FactorWhatWhereFullKey<NamespacedName>().unfactor(t, e);
              && (k in ns <==> Serves(q, iset{}, t, e))
              && (k in ns ==> ns[k] == DetailsOf(q, t, e))
    {
      var k := FactorWhatWhereFullKey<NamespacedName>().unfactor(t, e);
      var part := q.kind.partOf(t.0.gr, t.1.1);
      var tup: DownsyncTuple := (ExternalName(t.1.0, e), part, t.0.destination);
      assert NamespacedKey(tup) == k;
      assert tup in j <==> (tup.0, part) in left && (tup.0, tup.2) in right;
    }
  }

  function KeyOf(t: DistributionTuple<string>, epName: string): ClusterScopedKey {
    (ExternalName(t.1.0, epName), (t.0.gr, t.1.1), t.0.destination)
  }

  ghost function GoneWith(lost: set<ClusterScopedKey>): Gone<string> {
    iset t: DistributionTuple<string>, e: string | KeyOf(t, e) in lost :: (t, e)
  }

  lemma CallsAreWants(goes: Mailbox, pc: PerCluster, t: DistributionTuple<string>, e: string)
    ensures Calls(ClusterScoped(goes, pc), t, e) <==> Wants(goes, pc, KeyOf(t, e))
    ensures FactorWhatWhereFullKey<string>().unfactor(t, e) == KeyOf(t, e)
  {
  }

  lemma ClusterScopedFullIs(goes: Mailbox, pc: PerCluster, left: DownsyncLeft,
                            right: set<(ExternalName, SinglePlacement)>, j: Tuples,
                            ct: map<WhatWhereFullKey<string>, WorkloadPartDetails>, lost: set<ClusterScopedKey>)
    requires IsJoin(left, right, j) && DownsyncInput(pc, left) && WhereInput(pc, right)
    requires RoutedClusterScoped(goes, j, ct, lost)
    ensures FullBut(ClusterScoped(goes, pc), GoneWith(lost), ct)
  {
    var q := ClusterScoped(goes, pc);
    forall t: DistributionTuple<string>, e
      ensures var k := FactorWhatWhereFullKey<string>().unfactor(t, e);
              && (k in ct <==> Serves(q, GoneWith(lost), t, e))
              && (k in ct ==> ct[k] == DetailsOf(q, t, e))
    {
      var tup: DownsyncTuple := (ExternalName(t.1.0, e), WorkloadPartID(t.0.gr, "", t.1.1), t.0.destination);
      CallsAreWants(goes, pc, t, e);
      assert ClusterKey(tup) == KeyOf(t, e);
      assert tup in j <==> (tup.0, tup.1) in left && (tup.0, tup.2) in right;
      assert (t, e) in GoneWith(lost) <==> KeyOf(t, e) in lost;
    }
  }

  /** The full table is whole exactly when nothing wanted is lost. */
  lemma WholeTable(goes: Mailbox, pc: PerCluster, lost: set<ClusterScopedKey>,
                   ct: map<WhatWhereFullKey<string>, WorkloadPartDetails>)
    requires FullBut(ClusterScoped(goes, pc), GoneWith(lost), ct)
    ensures FullBut(ClusterScoped(goes, pc), iset{}, ct) <==> NoneLost(goes, pc, lost)
  {
    var q := ClusterScoped(goes, pc);
    if FullBut(q, iset{}, ct) {
      forall k: ClusterScopedKey | Wants(goes, pc, k)
        ensures k !in lost
      {
        var t, e := (ProjectionModeKey(k.1.0, k.2), (k.0.cluster, k.1.1)), k.0.name;
        CallsAreWants(goes, pc, t, e);
        assert k == KeyOf(t, e);
        assert Serves(q, iset{}, t, e) <==> Serves(q, GoneWith(lost), t, e);
        assert (t, e) in GoneWith(lost) <==> KeyOf(t, e) in lost;
      }
    }
    if NoneLost(goes, pc, lost) {
      forall t, e
        ensures Serves(q, iset{}, t, e) <==> Serves(q, GoneWith(lost), t, e)
      {
        NoneGone(goes, pc, lost, t, e);
      }
    }
  }

  lemma NoneGone(goes: Mailbox, pc: PerCluster, lost: set<ClusterScopedKey>, t: DistributionTuple<string>, e: string)
    requires NoneLost(goes, pc, lost)
    ensures Calls(ClusterScoped(goes, pc), t, e) ==> (t, e) !in GoneWith(lost)
  {
    CallsAreWants(goes, pc, t, e);
    assert (t, e) in GoneWith(lost) <==> KeyOf(t, e) in lost;
  }

  // ----- From the full tables to the distributions and the modes -----

  /** The groups of the full table are the calls for a distribution. */
  lemma GroupsAreCalls<Obj(!new)>(q: Demand<Obj>, gone: Gone<Obj>, outer: Full<Obj>,
                                  contents: map<WhatWhereFullKey<Obj>, WorkloadPartDetails>, t: DistributionTuple<Obj>,
                                  e: string)
    requires FullBut(q, gone, contents) && Represents(FactorWhatWhereFullKey<Obj>(), outer, contents)
    ensures Has(outer, t, e) <==> Serves(q, gone, t, e)
    ensures Has(outer, t, e) ==> outer[t][e] == DetailsOf(q, t, e)
  {
    hide Calls, DetailsOf;
    var k := FactorWhatWhereFullKey<Obj>().unfactor(t, e);
    assert FactorWhatWhereFullKey<Obj>().factor(k) == (t, e);
  }

  lemma GroupBits<Obj(!new)>(q: Demand<Obj>, gone: Gone<Obj>, outer: Full<Obj>,
                             contents: map<WhatWhereFullKey<Obj>, WorkloadPartDetails>, t: DistributionTuple<Obj>)
    requires FullBut(q, gone, contents) && Represents(FactorWhatWhereFullKey<Obj>(), outer, contents) && t in outer
    ensures OrBits(outer[t]).returnSingletonState <==>
              exists e :: Serves(q, gone, t, e) && DetailsOf(q, t, e).returnSingletonState
    ensures OrBits(outer[t]).createOnly <==>
              exists e :: Serves(q, gone, t, e) && DetailsOf(q, t, e).createOnly
  {
    forall e
      ensures e in outer[t] <==> Serves(q, gone, t, e)
      ensures e in outer[t] ==> outer[t][e] == DetailsOf(q, t, e)
    {
      GroupsAreCalls(q, gone, outer, contents, t, e);
    }
    hide FullBut, Represents, Serves, DetailsOf;
  }

  lemma DistributionsFollow<Obj(!new)>(q: Demand<Obj>, gone: Gone<Obj>, outer: Full<Obj>,
                                       contents: map<WhatWhereFullKey<Obj>, WorkloadPartDetails>,
                                       dist: map<DistributionTuple<Obj>, DistributionBits>)
    requires FullBut(q, gone, contents) && Represents(FactorWhatWhereFullKey<Obj>(), outer, contents)
             && NoneEmpty(outer)
    requires Summarizes(outer, dist)
    ensures DistributionsBut(q, gone, dist)
  {
    hide FullBut, Represents, Calls, DetailsOf, OrBits;
    forall t
      ensures t in dist <==> exists e :: Serves(q, gone, t, e)
    {
      if t in dist {
        var e :| e in outer[t];
        GroupsAreCalls(q, gone, outer, contents, t, e);
      }
      if e :| Serves(q, gone, t, e) {
        GroupsAreCalls(q, gone, outer, contents, t, e);
      }
    }
    forall t | t in dist
      ensures dist[t].returnSingletonState <==> exists e ::
                Serves(q, gone, t, e) && DetailsOf(q, t, e).returnSingletonState
      ensures dist[t].createOnly <==> exists e :: Serves(q, gone, t, e) && DetailsOf(q, t, e).createOnly
    {
      GroupBits(q, gone, outer, contents, t);
    }
  }

  lemma ModesFollow<Obj(!new)>(q: Demand<Obj>, gone: Gone<Obj>, outer: Full<Obj>,
                               contents: map<WhatWhereFullKey<Obj>, WorkloadPartDetails>,
                               versions: map<DistributionTuple<Obj>, string>,
                               grouped: Nested<ProjectionModeKey, (string, Obj), string>,
                               modes: map<ProjectionModeKey, string>)
    requires FullBut(q, gone, contents) && Represents(FactorWhatWhereFullKey<Obj>(), outer, contents)
             && NoneEmpty(outer)
    requires Versions(outer, versions)
    requires Represents(PairFactorer(), grouped, versions) && NoneEmpty(grouped) && Picks(grouped, modes)
    ensures ModesBut(q, gone, modes)
  {
    hide Calls, DetailsOf, FullBut, Represents;
    forall k
      ensures k in modes <==> exists source: string, o: Obj, e :: Serves(q, gone, (k, (source, o)), e)
      ensures k in modes ==> exists source: string, o: Obj, e ::
                Serves(q, gone, (k, (source, o)), e) && DetailsOf(q, (k, (source, o)), e).apiVersion == modes[k]
    {
      if k in modes {
        var so :| so in grouped[k] && grouped[k][so] == modes[k];
        var t: DistributionTuple<Obj> := (k, so);
        VersionGrouped(versions, grouped, t);
        var e :| e in outer[t] && outer[t][e].apiVersion == versions[t];
        GroupsAreCalls(q, gone, outer, contents, t, e);
        assert t == (k, (so.0, so.1));
      }
      if source: string, o: Obj, e :| Serves(q, gone, (k, (source, o)), e) {
        var t: DistributionTuple<Obj> := (k, (source, o));
        GroupsAreCalls(q, gone, outer, contents, t, e);
        VersionGrouped(versions, grouped, t);
      }
    }
  }

  lemma UpsyncsProject(pc: PerCluster, left: set<(ExternalName, UpsyncSet)>,
                       right: set<(ExternalName, SinglePlacement)>, j: set<UpsyncTuple>,
                       upsyncs: set<(SinglePlacement, UpsyncSet)>)
    requires UpsyncInput(pc, left) && WhereInput(pc, right) && IsFullJoin(left, right, j)
    requires forall x :: x in upsyncs <==> exists t :: t in j && FactorUpsyncTuple().factor(t).0 == x
    ensures AnswersUpsyncs(pc, upsyncs)
  {
    forall sp, u
      ensures (sp, u) in upsyncs <==> exists ep :: u in At(pc, ep).upsync && sp in At(pc, ep).where
    {
      if (sp, u) in upsyncs {
        var t :| t in j && FactorUpsyncTuple().factor(t).0 == (sp, u);
        assert t == (t.0, u, sp);
        assert (t.0, u) in left && (t.0, sp) in right;
      }
      if ep :| u in At(pc, ep).upsync && sp in At(pc, ep).where {
        assert (ep, u) in left && (ep, sp) in right;
        assert FactorUpsyncTuple().factor((ep, u, sp)).0 == (sp, u);
      }
    }
  }

  // ----- The demand determines the answers -----

  /** Two histories with the same latest words on every EdgePlacement make the same demand. */
  ghost predicate SameWords(pc: PerCluster, pc': PerCluster) {
    forall ep :: At(pc, ep) == At(pc', ep)
  }

  lemma SameCalls<Obj(!new)>(q: Demand<Obj>, pc: PerCluster)
    requires SameWords(q.pc, pc)
    ensures forall t, e :: Calls(q, t, e) <==> Calls(q.(pc := pc), t, e)
    ensures forall t, e | Calls(q, t, e) :: DetailsOf(q, t, e) == DetailsOf(q.(pc := pc), t, e)
  {
  }

  /** Same words and same losses, same distributions. */
  lemma DistributionsAreDetermined<Obj(!new)>(q: Demand<Obj>, pc: PerCluster, gone: Gone<Obj>, gone': Gone<Obj>,
                                              d: map<DistributionTuple<Obj>, DistributionBits>,
                                              d': map<DistributionTuple<Obj>, DistributionBits>)
    requires SameWords(q.pc, pc) && forall t, e | Calls(q, t, e) :: (t, e) in gone <==> (t, e) in gone'
    requires DistributionsBut(q, gone, d) && DistributionsBut(q.(pc := pc), gone', d')
    ensures d == d'
  {
    var q' := q.(pc := pc);
    SameCalls(q, pc);
    hide Calls, DetailsOf;
    forall t, e
      ensures Serves(q, gone, t, e) <==> Serves(q', gone', t, e)
      ensures Serves(q, gone, t, e) ==> DetailsOf(q, t, e) == DetailsOf(q', t, e)
    {
    }
    hide Serves;
    forall t
      ensures t in d <==> t in d'
      ensures t in d && t in d' ==> d[t] == d'[t]
    {
    }
    SameMap(d, d');
  }

  /** All calls that are not gone and are about the resource and destination have the same version. */
  ghost predicate Agreed<Obj(!new)>(q: Demand<Obj>, gone: Gone<Obj>, k: ProjectionModeKey) {
    forall source: string, o: Obj, e, source': string, o': Obj, e' |
      Serves(q, gone, (k, (source, o)), e) && Serves(q, gone, (k, (source', o')), e') ::
      DetailsOf(q, (k, (source, o)), e).apiVersion == DetailsOf(q, (k, (source', o')), e').apiVersion
  }

  /** The modes are about the same resources and destinations, with the same version where there is but one. */
  ghost predicate SameModes<Obj(!new)>(q: Demand<Obj>, gone: Gone<Obj>, m: map<ProjectionModeKey, string>,
                                       m': map<ProjectionModeKey, string>) {
    m.Keys == m'.Keys && forall k | k in m && Agreed(q, gone, k) :: m[k] == m'[k]
  }

  lemma SameService<Obj(!new)>(q: Demand<Obj>, pc: PerCluster, gone: Gone<Obj>, gone': Gone<Obj>,
                               t: DistributionTuple<Obj>, e: string)
    requires SameWords(q.pc, pc) && (Calls(q, t, e) ==> ((t, e) in gone <==> (t, e) in gone'))
    ensures Serves(q, gone, t, e) <==> Serves(q.(pc := pc), gone', t, e)
    ensures Serves(q, gone, t, e) ==> DetailsOf(q, t, e) == DetailsOf(q.(pc := pc), t, e)
  {
    SameCalls(q, pc);
    hide DetailsOf;
  }

  /** Same words and same losses, same modes up to the choice among versions. */
  lemma ModesAreDetermined<Obj(!new)>(q: Demand<Obj>, pc: PerCluster, gone: Gone<Obj>, gone': Gone<Obj>,
                                      m: map<ProjectionModeKey, string>, m': map<ProjectionModeKey, string>)
    requires SameWords(q.pc, pc) && forall t, e | Calls(q, t, e) :: (t, e) in gone <==> (t, e) in gone'
    requires ModesBut(q, gone, m) && ModesBut(q.(pc := pc), gone', m')
    ensures SameModes(q, gone, m, m')
  {
    hide Calls, DetailsOf, Serves, Agreed, SameWords;
    forall k
      ensures k in m <==> k in m'
    {
      if k in m {
        var source: string, o: Obj, e :| Serves(q, gone, (k, (source, o)), e);
        SameService(q, pc, gone, gone', (k, (source, o)), e);
      }
      if k in m' {
        var source: string, o: Obj, e :| Serves(q.(pc := pc), gone', (k, (source, o)), e);
        SameService(q, pc, gone, gone', (k, (source, o)), e);
      }
    }
    SameSet(m.Keys, m'.Keys);
    forall k | k in m && Agreed(q, gone, k)
      ensures m[k] == m'[k]
    {
      AgreedMode(q, pc, gone, gone', m, m', k);
    }
  }

  lemma AgreedMode<Obj(!new)>(q: Demand<Obj>, pc: PerCluster, gone: Gone<Obj>, gone': Gone<Obj>,
                              m: map<ProjectionModeKey, string>, m': map<ProjectionModeKey, string>,
                              k: ProjectionModeKey)
    requires SameWords(q.pc, pc) && forall t, e | Calls(q, t, e) :: (t, e) in gone <==> (t, e) in gone'
    requires ModesBut(q, gone, m) && ModesBut(q.(pc := pc), gone', m') && k in m && k in m' && Agreed(q, gone, k)
    ensures m[k] == m'[k]
  {
    hide Calls, DetailsOf, SameWords;
    var q' := q.(pc := pc);
    var source: string, o: Obj, e :|
      Serves(q, gone, (k, (source, o)), e) && DetailsOf(q, (k, (source, o)), e).apiVersion == m[k];
    var source': string, o': Obj, e' :|
      Serves(q', gone', (k, (source', o')), e') && DetailsOf(q', (k, (source', o')), e').apiVersion == m'[k];
    SameService(q, pc, gone, gone', (k, (source', o')), e');
  }

  /** Same words, same upsyncs. */
  lemma UpsyncsAreDetermined(pc: PerCluster, pc': PerCluster, u: set<(SinglePlacement, UpsyncSet)>,
                             u': set<(SinglePlacement, UpsyncSet)>)
    requires SameWords(pc, pc') && AnswersUpsyncs(pc, u) && AnswersUpsyncs(pc', u')
    ensures u == u'
  {
    hide At;
    forall x
      ensures x in u <==> x in u'
    {
      assert x == (x.0, x.1);
    }
    SameSet(u, u');
  }

  // ----- What the syncers are told -----

  /** Some call that is not gone is for the object to go to the destination. */
  ghost predicate CalledFor<Obj>(q: Demand<Obj>, gone: Gone<Obj>, dest: SinglePlacement, gr: GroupResource, o: Obj) {
    exists source: string, e :: Serves(q, gone, (ProjectionModeKey(gr, dest), (source, o)), e)
  }

  /** Some call that is not gone is for the object, in this API version, to go to the destination. */
  ghost predicate CalledForIn<Obj>(q: Demand<Obj>, gone: Gone<Obj>, dest: SinglePlacement, gr: GroupResource, o: Obj,
                                   version: string) {
    exists source: string, e ::
      var t := (ProjectionModeKey(gr, dest), (source, o));
      Serves(q, gone, t, e) && DetailsOf(q, t, e).apiVersion == version
  }

  /**
   What is wanted at a destination: the objects called for that go to the edge, each resource in a version
   called for.
   */
  ghost predicate WantedIs<Obj(!new)>(q: Demand<Obj>, gone: Gone<Obj>, dest: SinglePlacement, edge: Mailbox,
                                      wanted: Wanted<Obj>) {
    && (forall gr, o :: gr in wanted && o in wanted[gr].1 <==> edge(gr) && CalledFor(q, gone, dest, gr, o))
    && (forall gr | gr in wanted ::
          wanted[gr].1 != {} && exists o :: CalledForIn(q, gone, dest, gr, o, wanted[gr].0))
  }

  lemma WantedIsCalledFor<Obj(!new)>(q: Demand<Obj>, gone: Gone<Obj>,
                                     dist: map<DistributionTuple<Obj>, DistributionBits>,
                                     modes: map<ProjectionModeKey, string>, dest: SinglePlacement, edge: Mailbox,
                                     wanted: Wanted<Obj>)
    requires DistributionsBut(q, gone, dist) && ModesBut(q, gone, modes)
    requires forall gr, o :: gr in wanted && o in wanted[gr].1 <==> edge(gr) && Distributed(dist, dest, gr, o)
    requires forall gr | gr in wanted :: wanted[gr].1 != {}
    requires forall gr | gr in wanted ::
               var key := ProjectionModeKey(gr, dest);
               wanted[gr].0 == if key in modes then modes[key] else ""
    ensures WantedIs(q, gone, dest, edge, wanted)
  {
    hide Calls, DetailsOf;
    forall gr, o
      ensures Distributed(dist, dest, gr, o) <==> CalledFor(q, gone, dest, gr, o)
    {
    }
    forall gr | gr in wanted
      ensures exists o :: CalledForIn(q, gone, dest, gr, o, wanted[gr].0)
    {
      var o :| o in wanted[gr].1;
      assert Distributed(dist, dest, gr, o);
      var source: string :| (ProjectionModeKey(gr, dest), (source, o)) in dist;
      assert ProjectionModeKey(gr, dest) in modes;
      var source': string, o': Obj, e :|
        var t := (ProjectionModeKey(gr, dest), (source', o'));
        Serves(q, gone, t, e) && DetailsOf(q, t, e).apiVersion == wanted[gr].0;
      assert CalledForIn(q, gone, dest, gr, o', wanted[gr].0);
    }
  }
}
