/**
 What the assembled pipeline achieves: after any run of events its tables answer the documented
 query, as far as the code lets them, and the SyncerConfig objects say what the tables say.
 */
module Pipeline {
  import opened FactoredMaps
  import opened IndexedSets
  import opened Joins
  import opened Differencers
  import opened PlacementTypes
  import opened PlacementHistory
  import opened WorkloadProjector
  import opened BindingOrganizer
  import opened SetBinder
  import opened SyncerConfig
  import opened Query

  // ----- The tables in any state -----

  ghost function NamespacedDemand(b: SetBinder): Demand<NamespacedName>
    reads b
  {
    Namespaced(b.organizer.goesToMailbox, b.perCluster)
  }

  ghost function ClusterScopedDemand(b: SetBinder): Demand<string>
    reads b
  {
    ClusterScoped(b.organizer.goesToMailbox, b.perCluster)
  }

  /** The distributions and modes of namespaced objects answer the query, whatever happened before. */
  lemma NamespacedTablesAnswer(b: SetBinder)
    requires b.Valid()
    ensures AnswersDistributions(NamespacedDemand(b), b.organizer.namespaced.tables.Distributions())
    ensures AnswersModes(NamespacedDemand(b), b.organizer.namespaced.tables.Modes())
  {
    hide DownsyncInput, WhereInput, UpsyncInput, IsJoin, Represents, DistributionsBut, ModesBut, FullBut,
         RoutedNamespaced, RoutedClusterScoped, FactorWhatWhereFullKey, PairFactorer, NoneEmpty, Summarizes, Versions,
         Picks, DynamicJoin12VWith13.Valid, DynamicFullJoin12with13.Valid, ScopeTables.Valid, Namespaced;
    b.WiredJoins();
    var q, scope := NamespacedDemand(b), b.organizer.namespaced;
    NamespacedFullIs(b.organizer.goesToMailbox, b.perCluster, b.Left(), b.Right(), b.Joined(),
                     scope.whatWhereFull.contents);
    DistributionsFollow(q, iset{}, scope.whatWhereFull.outer, scope.whatWhereFull.contents,
                        scope.tables.Distributions());
    ModesFollow(q, iset{}, scope.whatWhereFull.outer, scope.whatWhereFull.contents, scope.aggregate.contents,
                scope.aggregate.outer, scope.tables.Modes());
  }

  /** Those of cluster-scoped objects answer it but for the lost entries, whatever happened before. */
  lemma ClusterScopedTablesAnswer(b: SetBinder)
    requires b.Valid()
    ensures FullBut(ClusterScopedDemand(b), GoneWith(b.lost), b.organizer.clusterScoped.whatWhereFull.contents)
    ensures DistributionsBut(ClusterScopedDemand(b), GoneWith(b.lost), b.organizer.clusterScoped.tables.Distributions())
    ensures ModesBut(ClusterScopedDemand(b), GoneWith(b.lost), b.organizer.clusterScoped.tables.Modes())
    ensures AnswersDistributions(ClusterScopedDemand(b), b.organizer.clusterScoped.tables.Distributions()) <==>
            MadeUpFor(ClusterScopedDemand(b), GoneWith(b.lost))
    ensures AnswersModes(ClusterScopedDemand(b), b.organizer.clusterScoped.tables.Modes()) <==>
            ResourceMadeUpFor(ClusterScopedDemand(b), GoneWith(b.lost))
    ensures b.Correct() ==>
              && MadeUpFor(ClusterScopedDemand(b), GoneWith(b.lost))
              && ResourceMadeUpFor(ClusterScopedDemand(b), GoneWith(b.lost))
  {
    hide DownsyncInput, WhereInput, UpsyncInput, IsJoin, Represents, DistributionsBut, ModesBut, FullBut,
         RoutedNamespaced, AnswersDistributions, AnswersModes, Calls, DetailsOf, SetBinder.Correct, NoneLost,
         RoutedClusterScoped, FactorWhatWhereFullKey, PairFactorer, NoneEmpty, Summarizes, Versions, Picks,
         DynamicJoin12VWith13.Valid, DynamicFullJoin12with13.Valid, ScopeTables.Valid, ClusterScoped, GoneWith;
    b.WiredJoins();
    var q, gone, scope := ClusterScopedDemand(b), GoneWith(b.lost), b.organizer.clusterScoped;
    ClusterScopedFullIs(b.organizer.goesToMailbox, b.perCluster, b.Left(), b.Right(), b.Joined(),
                        scope.whatWhereFull.contents, b.lost);
    DistributionsFollow(q, gone, scope.whatWhereFull.outer, scope.whatWhereFull.contents, scope.tables.Distributions());
    ModesFollow(q, gone, scope.whatWhereFull.outer, scope.whatWhereFull.contents, scope.aggregate.contents,
                scope.aggregate.outer, scope.tables.Modes());
    LossMatters(q, gone, scope.tables.Distributions());
    LossMattersForModes(q, gone, scope.tables.Modes());
    if b.Correct() {
      b.CorrectIs();
      forall t, e | Calls(q, t, e)
        ensures (t, e) !in gone
      {
        NoneGone(b.organizer.goesToMailbox, b.perCluster, b.lost, t, e);
      }
    }
  }

  /** The upsync relation answers the query, whatever happened before. */
  lemma UpsyncsAnswer(b: SetBinder)
    requires b.Valid()
    ensures AnswersUpsyncs(b.perCluster, b.organizer.upsyncs.contents)
  {
    hide DownsyncInput, WhereInput, UpsyncInput, IsFullJoin, AnswersUpsyncs, Routed, Bijective, Indexes, NoEmptyBucket,
         FactorUpsyncTuple, PairFactorer, Scope.Valid, DynamicJoin12VWith13.Valid;
    var full := b.organizer.upsyncsFull;
    KeysAreProjection(full.factoring, full.rep, full.contents);
    UpsyncsProject(b.perCluster, b.UpsyncLeft(), b.UpsyncRight(), full.contents, b.organizer.upsyncs.contents);
  }

  /**
   In both scopes, after losses too: objects are distributed and resources have versions for the same
   destinations.
   */
  lemma ModesAlwaysMatch(b: SetBinder)
    requires b.Valid()
    ensures var ns, ct := b.organizer.namespaced, b.organizer.clusterScoped;
            && ModesMatch(ns.whatWhereFull.contents, ns.tables.Distributions(), ns.tables.Modes())
            && ModesMatch(ct.whatWhereFull.contents, ct.tables.Distributions(), ct.tables.Modes())
  {
    hide DownsyncInput, WhereInput, UpsyncInput, DynamicJoin12VWith13.Valid, DynamicFullJoin12with13.Valid, Routed,
         ModesMatch, Scope.Valid;
    b.organizer.namespaced.ModesAlwaysMatch();
    b.organizer.clusterScoped.ModesAlwaysMatch();
  }

  // ----- The tables after a run -----

  /** The calls that a run has made go missing. */
  ghost function MissingCalls(events: seq<Event>): Gone<string> {
    iset t: DistributionTuple<string>, e: string | Missing(events, KeyOf(t, e)) :: (t, e)
  }

  /** What is lost after a run from nothing is what has gone missing. */
  lemma LostIsMissing(goes: Mailbox, events: seq<Event>, lost: set<ClusterScopedKey>, t: DistributionTuple<string>,
                      e: string)
    requires Accounts(goes, map[], {}, events, lost) && Calls(ClusterScoped(goes, AfterEvents(map[], events)), t, e)
    ensures (t, e) in GoneWith(lost) <==> (t, e) in MissingCalls(events)
  {
    hide Missing, MissingFrom, Wants;
    CallsAreWants(goes, AfterEvents(map[], events), t, e);
    MissingIsMissingFrom(events, KeyOf(t, e));
    assert (t, e) in GoneWith(lost) <==> KeyOf(t, e) in lost;
    assert (t, e) in MissingCalls(events) <==> Missing(events, KeyOf(t, e));
  }

  /** The full cluster-scoped table after a run: what is wanted and has not gone missing. */
  lemma TableAfterRun(goes: Mailbox, events: seq<Event>, lost: set<ClusterScopedKey>,
                      ct: map<WhatWhereFullKey<string>, WorkloadPartDetails>, k: ClusterScopedKey)
    requires Accounts(goes, map[], {}, events, lost)
    requires FullBut(ClusterScoped(goes, AfterEvents(map[], events)), GoneWith(lost), ct)
    ensures k in ct <==> Wants(goes, AfterEvents(map[], events), k) && !Missing(events, k)
  {
    hide Missing, MissingFrom, Wants, AfterEvents, Calls, DetailsOf;
    var pc := AfterEvents(map[], events);
    var t, e := (ProjectionModeKey(k.1.0, k.2), (k.0.cluster, k.1.1)), k.0.name;
    assert k == KeyOf(t, e) && k == (k.0, (k.1.0, k.1.1), k.2);
    CallsAreWants(goes, pc, t, e);
    if Calls(ClusterScoped(goes, pc), t, e) {
      LostIsMissing(goes, events, lost, t, e);
      assert (t, e) in MissingCalls(events) <==> Missing(events, KeyOf(t, e));
    }
  }

  /** In a harmless run nothing wanted goes missing. */
  lemma {:induction false} HarmlessMissesNothing(goes: Mailbox, events: seq<Event>, k: ClusterScopedKey)
    requires Harmless(goes, map[], events) && Wants(goes, AfterEvents(map[], events), k)
    ensures !Missing(events, k)
  {
    MissingIsMissingFrom(events, k);
    NothingMissingFrom(goes, events, k);
  }

  lemma {:induction false} NothingMissingFrom(goes: Mailbox, events: seq<Event>, k: ClusterScopedKey)
    requires Harmless(goes, map[], events) && Wants(goes, AfterEvents(map[], events), k)
    ensures !MissingFrom(map[], {}, events, k)
  {
    if events != [] {
      hide At, Next;
      var init, last := events[..|events| - 1], events[|events| - 1];
      var pc := AfterEvents(map[], init);
      AtNext(pc, last);
      if last.ep == k.0 && last.WhatPut? {
        var p := At(pc, last.ep);
        TwinsCollide(goes, p.downsync, last.downsync, p.where, last.ep);
      } else if Loses(pc, true, last, k) {
        assert Wants(goes, pc, k);
        NothingMissingFrom(goes, init, k);
      }
    }
  }

  /**
   From an empty pipeline, after any run of events. Namespaced distributions, modes and upsyncs answer
   the query over the latest words. The full cluster-scoped table has what is wanted and has not gone
   missing; distributions and modes of cluster-scoped objects answer the query over that, and so they
   answer the query itself exactly when what is missing is made up for.
   */
  method Assemble(goes: Mailbox, events: seq<Event>) returns (b: SetBinder)
    ensures b.Valid() && b.organizer.goesToMailbox == goes && b.perCluster == AfterEvents(map[], events)
    ensures Accounts(goes, map[], {}, events, b.lost)
    ensures var q, ns := Namespaced(goes, AfterEvents(map[], events)), b.organizer.namespaced.tables;
            AnswersDistributions(q, ns.Distributions()) && AnswersModes(q, ns.Modes())
    ensures AnswersUpsyncs(AfterEvents(map[], events), b.organizer.upsyncs.contents)
    ensures forall k :: k in b.organizer.clusterScoped.whatWhereFull.contents <==>
              Wants(goes, AfterEvents(map[], events), k) && !Missing(events, k)
    ensures var q, gone, ct :=
            ClusterScoped(goes, AfterEvents(map[], events)), MissingCalls(events), b.organizer.clusterScoped.tables;
            && DistributionsBut(q, gone, ct.Distributions()) && ModesBut(q, gone, ct.Modes())
            && (AnswersDistributions(q, ct.Distributions()) <==> MadeUpFor(q, gone))
            && (AnswersModes(q, ct.Modes()) <==> ResourceMadeUpFor(q, gone))
    ensures Harmless(goes, map[], events) ==>
              var q, ct := ClusterScoped(goes, AfterEvents(map[], events)), b.organizer.clusterScoped.tables;
              AnswersDistributions(q, ct.Distributions()) && AnswersModes(q, ct.Modes())
  {
    hide SetBinder.Wired, SetBinder.Left, SetBinder.Right, SetBinder.UpsyncLeft, SetBinder.UpsyncRight, DownsyncInput,
         UpsyncInput, WhereInput, Organizer.Valid, DistributionsBut, ModesBut, AnswersDistributions, AnswersModes,
         AnswersUpsyncs, AfterEvents, Harmless, Namespaced, ClusterScoped, FullBut, MissingCalls, GoneWith, MadeUpFor,
         ResourceMadeUpFor, Accounts, Wants, Missing;
    var organizer := new Organizer(goes);
    b := new SetBinder(organizer, organizer.Repr());
    b.Run(events);
    NamespacedTablesAnswer(b);
    UpsyncsAnswer(b);
    ClusterScopedTablesAnswer(b);
    ghost var ct := b.organizer.clusterScoped;
    AfterRun(goes, events, b.lost, ct.whatWhereFull.contents, ct.tables.Distributions(), ct.tables.Modes());
  }

  /** What the lost entries come to, in terms of the run. */
  lemma AfterRun(goes: Mailbox, events: seq<Event>, lost: set<ClusterScopedKey>,
                 ct: map<WhatWhereFullKey<string>, WorkloadPartDetails>,
                 dist: map<DistributionTuple<string>, DistributionBits>, modes: map<ProjectionModeKey, string>)
    requires Accounts(goes, map[], {}, events, lost)
    requires FullBut(ClusterScoped(goes, AfterEvents(map[], events)), GoneWith(lost), ct)
    requires DistributionsBut(ClusterScoped(goes, AfterEvents(map[], events)), GoneWith(lost), dist)
    requires ModesBut(ClusterScoped(goes, AfterEvents(map[], events)), GoneWith(lost), modes)
    ensures forall k :: k in ct <==> Wants(goes, AfterEvents(map[], events), k) && !Missing(events, k)
    ensures var q, gone := ClusterScoped(goes, AfterEvents(map[], events)), MissingCalls(events);
            && DistributionsBut(q, gone, dist) && ModesBut(q, gone, modes)
            && (AnswersDistributions(q, dist) <==> MadeUpFor(q, gone))
            && (AnswersModes(q, modes) <==> ResourceMadeUpFor(q, gone))
            && (Harmless(goes, map[], events) ==> MadeUpFor(q, gone) && ResourceMadeUpFor(q, gone))
  {
    hide Accounts, FullBut, DistributionsBut, ModesBut, GoneWith, Wants, Missing, AfterEvents, Calls, DetailsOf,
         ClusterScoped, Harmless, AnswersDistributions, AnswersModes;
    var q, gone := ClusterScoped(goes, AfterEvents(map[], events)), MissingCalls(events);
    forall k
      ensures k in ct <==> Wants(goes, AfterEvents(map[], events), k) && !Missing(events, k)
    {
      TableAfterRun(goes, events, lost, ct, k);
    }
    forall t, e | Calls(q, t, e)
      ensures (t, e) in GoneWith(lost) <==> (t, e) in gone
    {
      LostIsMissing(goes, events, lost, t, e);
    }
    SameGone(q, GoneWith(lost), gone, dist, modes);
    LossMatters(q, gone, dist);
    LossMattersForModes(q, gone, modes);
    if Harmless(goes, map[], events) {
      forall t, e | Calls(q, t, e)
        ensures (t, e) !in gone
      {
        CallsAreWants(goes, AfterEvents(map[], events), t, e);
        HarmlessMissesNothing(goes, events, KeyOf(t, e));
        assert (t, e) in gone <==> Missing(events, KeyOf(t, e));
      }
    }
  }

  // ----- The order of events -----

  /** The runs leave the same word on every EdgePlacement. */
  ghost predicate SameLatest(events: seq<Event>, events': seq<Event>) {
    forall ep ::
      LatestWhat(events, ep) == LatestWhat(events', ep) && LatestWhere(events, ep) == LatestWhere(events', ep)
  }

  lemma SameLatestSameWords(events: seq<Event>, events': seq<Event>)
    requires SameLatest(events, events')
    ensures SameWords(AfterEvents(map[], events), AfterEvents(map[], events'))
  {
    hide At, AfterEvents, LatestWhat, LatestWhere;
    forall ep
      ensures At(AfterEvents(map[], events), ep) == At(AfterEvents(map[], events'), ep)
    {
      OnlyTheLatestCounts(events, ep);
      OnlyTheLatestCounts(events', ep);
    }
  }

  /**
   However the events were ordered and whatever came before: runs that leave the same word on every
   EdgePlacement leave the same namespaced distributions and the same upsyncs, and the same
   cluster-scoped distributions if they have made the same wanted entries go missing. So it is with the
   modes, up to the choice among versions on which EdgePlacements do not agree.
   */
  method OrderDoesNotMatter(goes: Mailbox, events: seq<Event>, events': seq<Event>)
    returns (b: SetBinder, b': SetBinder)
    requires SameLatest(events, events')
    ensures b.Valid() && b'.Valid() && b.organizer.goesToMailbox == goes == b'.organizer.goesToMailbox
    ensures b.perCluster == AfterEvents(map[], events) && b'.perCluster == AfterEvents(map[], events')
    ensures b.organizer.namespaced.tables.Distributions() == b'.organizer.namespaced.tables.Distributions()
    ensures b.organizer.upsyncs.contents == b'.organizer.upsyncs.contents
    ensures (forall k | Wants(goes, b.perCluster, k) :: Missing(events, k) <==> Missing(events', k)) ==>
              b.organizer.clusterScoped.tables.Distributions() == b'.organizer.clusterScoped.tables.Distributions()
    ensures SameModes(NamespacedDemand(b), iset{}, b.organizer.namespaced.tables.Modes(),
                      b'.organizer.namespaced.tables.Modes())
    ensures (forall k | Wants(goes, b.perCluster, k) :: Missing(events, k) <==> Missing(events', k)) ==>
              SameModes(ClusterScopedDemand(b), MissingCalls(events), b.organizer.clusterScoped.tables.Modes(),
                        b'.organizer.clusterScoped.tables.Modes())
  {
    hide SetBinder.Valid, DistributionsBut, ModesBut, AnswersUpsyncs, AfterEvents, Harmless, Wants, Missing, MadeUpFor,
         ResourceMadeUpFor, SameWords, Namespaced, ClusterScoped, MissingCalls, SameModes;
    b := Assemble(goes, events);
    b' := Assemble(goes, events');
    SameLatestSameWords(events, events');
    SameTables(goes, events, events', b.organizer.namespaced.tables.Distributions(),
               b'.organizer.namespaced.tables.Distributions(),
               b.organizer.clusterScoped.tables.Distributions(), b'.organizer.clusterScoped.tables.Distributions());
    SameModeTables(goes, events, events', b.organizer.namespaced.tables.Modes(),
                   b'.organizer.namespaced.tables.Modes(),
                   b.organizer.clusterScoped.tables.Modes(), b'.organizer.clusterScoped.tables.Modes());
    UpsyncsAreDetermined(b.perCluster, b'.perCluster, b.organizer.upsyncs.contents, b'.organizer.upsyncs.contents);
  }

  /** Where the same wanted entries are missing, the same calls are. */
  lemma SameMissing(goes: Mailbox, events: seq<Event>, events': seq<Event>)
    requires forall k | Wants(goes, AfterEvents(map[], events), k) :: Missing(events, k) <==> Missing(events', k)
    ensures forall t, e | Calls(ClusterScoped(goes, AfterEvents(map[], events)), t, e) ::
              (t, e) in MissingCalls(events) <==> (t, e) in MissingCalls(events')
  {
    hide AfterEvents, Missing, Wants, Calls;
    var pc := AfterEvents(map[], events);
    forall t, e | Calls(ClusterScoped(goes, pc), t, e)
      ensures (t, e) in MissingCalls(events) <==> (t, e) in MissingCalls(events')
    {
      CallsAreWants(goes, pc, t, e);
      assert (t, e) in MissingCalls(events) <==> Missing(events, KeyOf(t, e));
      assert (t, e) in MissingCalls(events') <==> Missing(events', KeyOf(t, e));
    }
  }

  lemma SameModeTables(goes: Mailbox, events: seq<Event>, events': seq<Event>, ns: map<ProjectionModeKey, string>,
                       ns': map<ProjectionModeKey, string>, ct: map<ProjectionModeKey, string>,
                       ct': map<ProjectionModeKey, string>)
    requires SameWords(AfterEvents(map[], events), AfterEvents(map[], events'))
    requires AnswersModes(Namespaced(goes, AfterEvents(map[], events)), ns)
    requires AnswersModes(Namespaced(goes, AfterEvents(map[], events')), ns')
    requires ModesBut(ClusterScoped(goes, AfterEvents(map[], events)), MissingCalls(events), ct)
    requires ModesBut(ClusterScoped(goes, AfterEvents(map[], events')), MissingCalls(events'), ct')
    ensures SameModes(Namespaced(goes, AfterEvents(map[], events)), iset{}, ns, ns')
    ensures (forall k | Wants(goes, AfterEvents(map[], events), k) :: Missing(events, k) <==> Missing(events', k)) ==>
              SameModes(ClusterScoped(goes, AfterEvents(map[], events)), MissingCalls(events), ct, ct')
  {
    hide SameWords, ModesBut, AfterEvents, Missing, Wants, Calls, DetailsOf, SameModes, MissingCalls;
    var pc, pc' := AfterEvents(map[], events), AfterEvents(map[], events');
    ModesAreDetermined(Namespaced(goes, pc), pc', iset{}, iset{}, ns, ns');
    if forall k | Wants(goes, pc, k) :: Missing(events, k) <==> Missing(events', k) {
      SameMissing(goes, events, events');
      ModesAreDetermined(ClusterScoped(goes, pc), pc', MissingCalls(events), MissingCalls(events'), ct, ct');
    }
  }

  lemma SameTables(goes: Mailbox, events: seq<Event>, events': seq<Event>,
                   ns: map<DistributionTuple<NamespacedName>, DistributionBits>,
                   ns': map<DistributionTuple<NamespacedName>, DistributionBits>,
                   ct: map<DistributionTuple<string>, DistributionBits>,
                   ct': map<DistributionTuple<string>, DistributionBits>)
    requires SameWords(AfterEvents(map[], events), AfterEvents(map[], events'))
    requires AnswersDistributions(Namespaced(goes, AfterEvents(map[], events)), ns)
    requires AnswersDistributions(Namespaced(goes, AfterEvents(map[], events')), ns')
    requires DistributionsBut(ClusterScoped(goes, AfterEvents(map[], events)), MissingCalls(events), ct)
    requires DistributionsBut(ClusterScoped(goes, AfterEvents(map[], events')), MissingCalls(events'), ct')
    ensures ns == ns'
    ensures (forall k | Wants(goes, AfterEvents(map[], events), k) :: Missing(events, k) <==> Missing(events', k)) ==>
              ct == ct'
  {
    hide SameWords, DistributionsBut, AfterEvents, Missing, Wants, Calls, DetailsOf, MissingCalls;
    var pc, pc' := AfterEvents(map[], events), AfterEvents(map[], events');
    DistributionsAreDetermined(Namespaced(goes, pc), pc', iset{}, iset{}, ns, ns');
    if forall k | Wants(goes, pc, k) :: Missing(events, k) <==> Missing(events', k) {
      SameMissing(goes, events, events');
      DistributionsAreDetermined(ClusterScoped(goes, pc), pc', MissingCalls(events), MissingCalls(events'), ct, ct');
    }
  }

  // ----- A run that loses an object, and one event more that brings it back -----

  function LosingRun(ep: ExternalName, gr: GroupResource, sp: SinglePlacement,
                     details: WorkloadPartDetails): (run: seq<Event>)
    ensures |run| == 3
  {
    var kept, goner := WorkloadPartID(gr, "", "name"), WorkloadPartID(gr, "namespace", "name");
    [Event.WherePut(ep, [[sp]]),
     Event.WhatPut(ep, map[kept := details, goner := details], []),
     Event.WhatPut(ep, map[kept := details], [])]
  }

  lemma LosingStates(ep: ExternalName, gr: GroupResource, sp: SinglePlacement, details: WorkloadPartDetails)
    ensures var run := LosingRun(ep, gr, sp, details);
            var kept, goner := WorkloadPartID(gr, "", "name"), WorkloadPartID(gr, "namespace", "name");
            && At(AfterEvents(map[], run[..2]), ep) == Placement(map[kept := details, goner := details], [], {sp})
            && At(AfterEvents(map[], run), ep) == Placement(map[kept := details], [], {sp})
            && At(AfterEvents(map[], run + [run[2]]), ep) == Placement(map[kept := details], [], {sp})
            && forall e | e != ep ::
                 At(AfterEvents(map[], run), e) == At(AfterEvents(map[], run + [run[2]]), e) == NOTHING
  {
    var run := LosingRun(ep, gr, sp, details);
    var none: seq<Event> := [];
    assert none + [run[0]] == run[..1] && run[..1] + [run[1]] == run[..2] && run[..2] + [run[2]] == run;
    var pc0 := AfterEvents(map[], none);
    assert pc0 == map[];
    hide AfterEvents, At, Next;
    AfterOneMore(map[], {}, none, run[0]);
    AtNext(pc0, run[0]);
    AfterOneMore(map[], {}, run[..1], run[1]);
    AtNext(AfterEvents(map[], run[..1]), run[1]);
    AfterOneMore(map[], {}, run[..2], run[2]);
    AtNext(AfterEvents(map[], run[..2]), run[2]);
    AfterOneMore(map[], {}, run, run[2]);
    AtNext(AfterEvents(map[], run), run[2]);
    OneDestination(sp);
    NothingAtFirst();
  }

  lemma OneDestination(sp: SinglePlacement)
    ensures Destinations([[sp]]) == {sp}
  {
    assert [[sp]][0][0] == sp;
  }

  lemma NothingAtFirst()
    ensures forall ep :: At(map[], ep) == NOTHING
  {
  }

  /** The third event makes the only call for the object go missing. */
  lemma LosingRunMisses(ep: ExternalName, gr: GroupResource, sp: SinglePlacement, details: WorkloadPartDetails)
    ensures Missing(LosingRun(ep, gr, sp, details), (ep, (gr, "name"), sp))
  {
    var run, k := LosingRun(ep, gr, sp, details), (ep, (gr, "name"), sp);
    LosingStates(ep, gr, sp, details);
    MissingIsMissingFrom(run, k);
    AfterOneMore(map[], {}, run[..2], run[2]);
    assert run[..2] + [run[2]] == run;
    assert WorkloadPartID(gr, "namespace", "name") in At(AfterEvents(map[], run[..2]), ep).downsync;
    hide AfterEvents, At;
    assert DropsTwin(At(AfterEvents(map[], run[..2]), ep).downsync, run[2].downsync, k);
  }

  lemma OnlyTheLastIsHarmful(goes: Mailbox, ep: ExternalName, gr: GroupResource, sp: SinglePlacement,
                             details: WorkloadPartDetails)
    requires goes(gr)
    ensures var run := LosingRun(ep, gr, sp, details);
            && !Harmful(goes, map[], run[0]) && !Harmful(goes, AfterEvents(map[], run[..1]), run[1])
            && Harmful(goes, AfterEvents(map[], run[..2]), run[2])
  {
    var run := LosingRun(ep, gr, sp, details);
    LosingStates(ep, gr, sp, details);
    var none: seq<Event> := [];
    assert none + [run[0]] == run[..1];
    AfterOneMore(map[], {}, none, run[0]);
    AtNext(AfterEvents(map[], none), run[0]);
    NothingAtFirst();
    hide AfterEvents, At, Next;
    assert WorkloadPartID(gr, "namespace", "name") in At(AfterEvents(map[], run[..2]), ep).downsync;
  }

  /**
   A run of three events, about one EdgePlacement, after which a cluster-scoped object that is called for is
   not distributed.
   */
  method LosesAnObject(goes: Mailbox, gr: GroupResource, sp: SinglePlacement, details: WorkloadPartDetails)
    returns (b: SetBinder)
    requires goes(gr)
    ensures b.Valid() && b.organizer.goesToMailbox == goes
    ensures !AnswersDistributions(ClusterScopedDemand(b), b.organizer.clusterScoped.tables.Distributions())
    ensures !AnswersModes(ClusterScopedDemand(b), b.organizer.clusterScoped.tables.Modes())
  {
    hide SetBinder.Valid, DistributionsBut, ModesBut, AnswersUpsyncs, AnswersDistributions, AnswersModes, AfterEvents,
         Harmless, Wants, Missing, MadeUpFor, ResourceMadeUpFor, LosingRun, MissingCalls, ClusterScoped;
    var ep := ExternalName("cluster", "placement");
    b := Assemble(goes, LosingRun(ep, gr, sp, details));
    NotMadeUp(goes, ep, gr, sp, details);
  }

  lemma NotMadeUp(goes: Mailbox, ep: ExternalName, gr: GroupResource, sp: SinglePlacement, details: WorkloadPartDetails)
    requires goes(gr)
    ensures var run := LosingRun(ep, gr, sp, details);
            var q := ClusterScoped(goes, AfterEvents(map[], run));
            !MadeUpFor(q, MissingCalls(run)) && !ResourceMadeUpFor(q, MissingCalls(run))
  {
    var run := LosingRun(ep, gr, sp, details);
    var q, gone := ClusterScoped(goes, AfterEvents(map[], run)), MissingCalls(run);
    var t := (ProjectionModeKey(gr, sp), (ep.cluster, "name"));
    LosingStates(ep, gr, sp, details);
    LosingRunMisses(ep, gr, sp, details);
    hide AfterEvents, At, Missing, LosingRun;
    assert KeyOf(t, ep.name) == (ep, (gr, "name"), sp);
    assert Calls(q, t, ep.name) && (t, ep.name) in gone;
    forall t': DistributionTuple<string>, e | t'.0 == t.0
      ensures !Serves(q, gone, t', e)
    {
      if Calls(q, t', e) {
        assert t' == (t'.0, (t'.1.0, t'.1.1));
        assert ExternalName(t'.1.0, e) == ep;
        assert t' == t && e == ep.name;
      }
    }
  }

  /** Saying the same again brings the object back: harm done is not a matter of a harmful event alone. */
  method RepeatBringsBack(goes: Mailbox, gr: GroupResource, sp: SinglePlacement, details: WorkloadPartDetails)
    returns (b: SetBinder)
    requires goes(gr)
    ensures var run := LosingRun(ExternalName("cluster", "placement"), gr, sp, details);
            b.perCluster == AfterEvents(map[], run + [run[2]]) && !Harmless(goes, map[], run + [run[2]])
    ensures b.Valid() && b.organizer.goesToMailbox == goes
    ensures AnswersDistributions(ClusterScopedDemand(b), b.organizer.clusterScoped.tables.Distributions())
    ensures AnswersModes(ClusterScopedDemand(b), b.organizer.clusterScoped.tables.Modes())
  {
    hide SetBinder.Valid, DistributionsBut, ModesBut, AnswersUpsyncs, AnswersDistributions, AnswersModes, AfterEvents,
         Harmless, Wants, Missing, MadeUpFor, ResourceMadeUpFor, LosingRun, MissingCalls, ClusterScoped;
    var ep := ExternalName("cluster", "placement");
    var run := LosingRun(ep, gr, sp, details);
    b := Assemble(goes, run + [run[2]]);
    NothingMissingAfterRepeat(goes, ep, gr, sp, details);
    LosingRunHarms(goes, ep, gr, sp, details);
  }

  lemma LosingRunHarms(goes: Mailbox, ep: ExternalName, gr: GroupResource, sp: SinglePlacement,
                       details: WorkloadPartDetails)
    requires goes(gr)
    ensures var run := LosingRun(ep, gr, sp, details); !Harmless(goes, map[], run + [run[2]])
  {
    var run, k := LosingRun(ep, gr, sp, details), (ep, (gr, "name"), sp);
    if Harmless(goes, map[], run + [run[2]]) {
      assert (run + [run[2]])[..3] == run;
      LosingStates(ep, gr, sp, details);
      LosingRunMisses(ep, gr, sp, details);
      HarmlessMissesNothing(goes, run, k);
    }
  }

  lemma NothingMissingAfterRepeat(goes: Mailbox, ep: ExternalName, gr: GroupResource, sp: SinglePlacement,
                                  details: WorkloadPartDetails)
    ensures var run := LosingRun(ep, gr, sp, details) + [LosingRun(ep, gr, sp, details)[2]];
            var q := ClusterScoped(goes, AfterEvents(map[], run));
            MadeUpFor(q, MissingCalls(run)) && ResourceMadeUpFor(q, MissingCalls(run))
  {
    var three := LosingRun(ep, gr, sp, details);
    var run := three + [three[2]];
    var q := ClusterScoped(goes, AfterEvents(map[], run));
    LosingStates(ep, gr, sp, details);
    AfterOneMore(map[], {}, three, three[2]);
    forall t, e | Calls(q, t, e)
      ensures (t, e) !in MissingCalls(run)
    {
      hide AfterEvents, MissingFrom;
      MissingIsMissingFrom(run, KeyOf(t, e));
      assert (t, e) in MissingCalls(run) <==> Missing(run, KeyOf(t, e));
      assert At(q.pc, ExternalName(t.1.0, e)) != NOTHING;
    }
  }

  // ----- What the syncers are told -----

  /**
   The SyncerConfig written for a destination, in any state: it tells the syncer to downsync exactly
   the namespaced objects, and exactly the cluster-scoped objects but for lost entries, that
   EdgePlacements call for there, and to upsync exactly what they call for from there.
   */
  method SyncerConfigFor(b: SetBinder, dest: SinglePlacement, edge: Mailbox) returns (spec: Spec)
    requires b.Valid()
    ensures WantedIs(NamespacedDemand(b), iset{}, dest, edge, Decode(spec).namespaced)
    ensures WantedIs(ClusterScopedDemand(b), GoneWith(b.lost), dest, edge, Decode(spec).clusterScoped)
    ensures forall u :: u in Decode(spec).upsyncs <==> exists ep ::
              u in At(b.perCluster, ep).upsync && dest in At(b.perCluster, ep).where
    ensures OneEach(spec)
  {
    hide SetBinder.Wired, SetBinder.Valid, DistributionsBut, ModesBut, FullBut, Namespaced, ClusterScoped, WantedIs,
         Distributed, ScopeTables.Valid, At, GoneWith;
    NamespacedTablesAnswer(b);
    ClusterScopedTablesAnswer(b);
    UpsyncsAnswer(b);
    TablesAreValid(b);
    var ns, ct := b.organizer.namespaced.tables, b.organizer.clusterScoped.tables;
    var namespaced := WantedFor(ns, dest, edge);
    WantedIsCalledFor(NamespacedDemand(b), iset{}, ns.Distributions(), ns.Modes(), dest, edge, namespaced);
    var clusterScoped := WantedFor(ct, dest, edge);
    WantedIsCalledFor(ClusterScopedDemand(b), GoneWith(b.lost), ct.Distributions(), ct.Modes(), dest, edge,
                      clusterScoped);
    var upsyncs := Bucket(b.organizer.upsyncs.rep, dest);
    spec := SpecFromRelations(Relations(namespaced, clusterScoped, upsyncs));
  }

  lemma TablesAreValid(b: SetBinder)
    requires b.Valid()
    ensures b.organizer.namespaced.tables.Valid() && b.organizer.clusterScoped.tables.Valid()
    ensures forall dest, u :: u in Bucket(b.organizer.upsyncs.rep, dest) <==> (dest, u) in b.organizer.upsyncs.contents
  {
    hide DynamicJoin12VWith13.Valid, DynamicFullJoin12with13.Valid, ScopeTables.Valid, Routed, FactoredMap.Valid,
         Summarizes, Versions, Picks, DownsyncInput, UpsyncInput, WhereInput;
    var upsyncs := b.organizer.upsyncs;
    forall dest, u
      ensures u in Bucket(upsyncs.rep, dest) <==> (dest, u) in upsyncs.contents
    {
      assert upsyncs.factoring.factor((dest, u)) == (dest, u);
    }
  }
}
