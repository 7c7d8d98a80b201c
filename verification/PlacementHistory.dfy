/**
 What the placement pipeline is told over time: the latest "what" and "where" of every EdgePlacement,
 and which entries of the cluster-scoped table a run of events loses.
 */
module PlacementHistory {
  import opened Differencers
  import opened PlacementTypes

  type Mailbox = GroupResource -> bool

  /** The latest that was received for one EdgePlacement. */
  datatype Placement = Placement(downsync: map<WorkloadPartID, WorkloadPartDetails>, upsync: seq<UpsyncSet>,
                                 where: set<SinglePlacement>)

  const NOTHING: Placement := Placement(map[], [], {})

  type PerCluster = map<string, map<string, Placement>>

  function At(pc: PerCluster, ep: ExternalName): Placement {
    if ep.cluster in pc && ep.name in pc[ep.cluster] then pc[ep.cluster][ep.name] else NOTHING
  }

  function Set(pc: PerCluster, ep: ExternalName, p: Placement): PerCluster {
    pc[ep.cluster := (if ep.cluster in pc then pc[ep.cluster] else map[])[ep.name := p]]
  }

  lemma SetAt(pc: PerCluster, ep: ExternalName, p: Placement)
    ensures forall e :: At(Set(pc, ep, p), e) == if e == ep then p else At(pc, e)
  {
  }

  // ----- Events -----

  datatype Event =
    | WhatPut(ep: ExternalName, downsync: map<WorkloadPartID, WorkloadPartDetails>, upsync: seq<UpsyncSet>)
    | WhatDelete(ep: ExternalName)
    | WherePut(ep: ExternalName, where: seq<seq<SinglePlacement>>)
    | WhereDelete(ep: ExternalName)

  ghost function Next(pc: PerCluster, e: Event): PerCluster {
    match e
    case WhatPut(ep, downsync, upsync) => Set(pc, ep, At(pc, ep).(downsync := downsync, upsync := upsync))
    case WhatDelete(ep) => if ep.cluster in pc then Set(pc, ep, At(pc, ep).(downsync := map[], upsync := [])) else pc
    case WherePut(ep, where) => Set(pc, ep, At(pc, ep).(where := Destinations(where)))
    case WhereDelete(ep) => if ep.cluster in pc then Set(pc, ep, At(pc, ep).(where := Destinations([]))) else pc
  }

  ghost function AfterEvents(pc: PerCluster, events: seq<Event>): PerCluster {
    if events == [] then pc else Next(AfterEvents(pc, events[..|events| - 1]), events[|events| - 1])
  }

  /**
   An object in a namespace is dropped while the object of the same resource and name but without a
   namespace stays, the resource goes to the mailbox, and the EdgePlacement has a destination.
   */
  ghost predicate Collides(goes: Mailbox, before: map<WorkloadPartID, WorkloadPartDetails>,
                           after: map<WorkloadPartID, WorkloadPartDetails>, where: set<SinglePlacement>)
  {
    && where != {}
    && exists part ::
         part in before && part !in after && goes(part.gr) && WorkloadPartID(part.gr, "", part.name) in after
  }

  /** The event takes away a namespaced object while a cluster-scoped one of the same resource and name is to stay. */
  ghost predicate Harmful(goes: Mailbox, pc: PerCluster, e: Event) {
    e.WhatPut? && Collides(goes, At(pc, e.ep).downsync, e.downsync, At(pc, e.ep).where)
  }

  ghost predicate Harmless(goes: Mailbox, pc: PerCluster, events: seq<Event>) {
    events == [] ||
    var init := events[..|events| - 1];
    Harmless(goes, pc, init) && !Harmful(goes, AfterEvents(pc, init), events[|events| - 1])
  }

  lemma SetTwice(pc: PerCluster, ep: ExternalName, p: Placement, upsync: seq<UpsyncSet>)
    ensures At(Set(pc, ep, p), ep) == p
    ensures Set(Set(pc, ep, p), ep, p.(upsync := upsync)) == Set(pc, ep, p.(upsync := upsync))
  {
    var q := p.(upsync := upsync);
    var m := if ep.cluster in pc then pc[ep.cluster] else map[];
    assert m[ep.name := p][ep.name := q] == m[ep.name := q];
  }

  /** The latest word on what an EdgePlacement calls for, reading a run backwards. */
  ghost function LatestWhat(events: seq<Event>,
                            ep: ExternalName): (map<WorkloadPartID, WorkloadPartDetails>, seq<UpsyncSet>) {
    if events == [] then (map[], [])
    else
      var last := events[|events| - 1];
      if last.ep == ep && last.WhatPut? then (last.downsync, last.upsync)
      else if last.ep == ep && last.WhatDelete? then (map[], [])
      else LatestWhat(events[..|events| - 1], ep)
  }

  /** The latest word on where an EdgePlacement says that things go, reading a run backwards. */
  ghost function LatestWhere(events: seq<Event>, ep: ExternalName): set<SinglePlacement> {
    if events == [] then {}
    else
      var last := events[|events| - 1];
      if last.ep == ep && last.WherePut? then Destinations(last.where)
      else if last.ep == ep && last.WhereDelete? then {}
      else LatestWhere(events[..|events| - 1], ep)
  }

  /** Only the latest word on each EdgePlacement counts, in whatever order the others came. */
  lemma {:induction false} OnlyTheLatestCounts(events: seq<Event>, ep: ExternalName)
    ensures At(AfterEvents(map[], events), ep) ==
            Placement(LatestWhat(events, ep).0, LatestWhat(events, ep).1, LatestWhere(events, ep))
  {
    if events != [] {
      var init, last := events[..|events| - 1], events[|events| - 1];
      OnlyTheLatestCounts(init, ep);
      var pc := AfterEvents(map[], init);
      SetAt(pc, last.ep, At(Next(pc, last), last.ep));
      NoDestinations();
    }
  }

  /** The event is the last one on what its EdgePlacement calls for, or on where that goes. */
  ghost predicate LastWhatAt(events: seq<Event>, i: int, ep: ExternalName) {
    && 0 <= i < |events| && events[i].ep == ep && events[i].WhatPut?
    && forall j | i < j < |events| && events[j].ep == ep :: !events[j].WhatPut? && !events[j].WhatDelete?
  }

  ghost predicate LastWhereAt(events: seq<Event>, i: int, ep: ExternalName) {
    && 0 <= i < |events| && events[i].ep == ep && events[i].WherePut?
    && forall j | i < j < |events| && events[j].ep == ep :: !events[j].WherePut? && !events[j].WhereDelete?
  }

  /** The latest words are those of the last such events, if they were not deletions. */
  lemma {:induction false} LatestWhatIs(events: seq<Event>, ep: ExternalName)
    ensures forall i | LastWhatAt(events, i, ep) :: LatestWhat(events, ep) == (events[i].downsync, events[i].upsync)
    ensures (forall i :: !LastWhatAt(events, i, ep)) ==> LatestWhat(events, ep) == (map[], [])
  {
    if events != [] {
      var init, last := events[..|events| - 1], events[|events| - 1];
      LatestWhatIs(init, ep);
      LatestWhatStep(events, ep);
      if last.ep == ep && last.WhatPut? {
        assert LastWhatAt(events, |init|, ep);
      } else {
        hide LatestWhat;
        forall i | LastWhatAt(events, i, ep) { LastWhatStep(events, i, ep); }
        if i :| LastWhatAt(init, i, ep) {
          LastWhatStep(events, i, ep);
        }
      }
    }
  }

  lemma {:induction false} LatestWhereIs(events: seq<Event>, ep: ExternalName)
    ensures forall i, sp | LastWhereAt(events, i, ep) ::
              sp in LatestWhere(events, ep) <==> exists h :: 0 <= h < |events[i].where| && sp in events[i].where[h]
    ensures (forall i :: !LastWhereAt(events, i, ep)) ==> LatestWhere(events, ep) == {}
  {
    if events != [] {
      var init, last := events[..|events| - 1], events[|events| - 1];
      LatestWhereIs(init, ep);
      LatestWhereStep(events, ep);
      if last.ep == ep && last.WherePut? {
        assert LastWhereAt(events, |init|, ep);
        DestinationsAre(last.where);
      } else {
        hide LatestWhere;
        forall i | LastWhereAt(events, i, ep) { LastWhereStep(events, i, ep); }
        if i :| LastWhereAt(init, i, ep) {
          LastWhereStep(events, i, ep);
        }
      }
    }
  }

  lemma LatestWhatStep(events: seq<Event>, ep: ExternalName)
    requires events != []
    ensures var last := events[|events| - 1];
            LatestWhat(events, ep) ==
            if last.ep == ep && last.WhatPut? then (last.downsync, last.upsync)
            else if last.ep == ep && last.WhatDelete? then (map[], [])
            else LatestWhat(events[..|events| - 1], ep)
  {
  }

  lemma LatestWhereStep(events: seq<Event>, ep: ExternalName)
    requires events != []
    ensures var last := events[|events| - 1];
            LatestWhere(events, ep) ==
            if last.ep == ep && last.WherePut? then Destinations(last.where)
            else if last.ep == ep && last.WhereDelete? then {}
            else LatestWhere(events[..|events| - 1], ep)
  {
  }

  lemma LastWhatStep(events: seq<Event>, i: int, ep: ExternalName)
    requires events != [] && !(events[|events| - 1].ep == ep && events[|events| - 1].WhatPut?)
    ensures var init, last := events[..|events| - 1], events[|events| - 1];
            LastWhatAt(events, i, ep) <==> LastWhatAt(init, i, ep) && !(last.ep == ep && last.WhatDelete?)
  {
    var init := events[..|events| - 1];
    assert forall j | 0 <= j < |init| :: init[j] == events[j];
    if LastWhatAt(init, i, ep) {
      assert i < |events| - 1;
    }
  }

  lemma LastWhereStep(events: seq<Event>, i: int, ep: ExternalName)
    requires events != [] && !(events[|events| - 1].ep == ep && events[|events| - 1].WherePut?)
    ensures var init, last := events[..|events| - 1], events[|events| - 1];
            LastWhereAt(events, i, ep) <==> LastWhereAt(init, i, ep) && !(last.ep == ep && last.WhereDelete?)
  {
    var init := events[..|events| - 1];
    assert forall j | 0 <= j < |init| :: init[j] == events[j];
    if LastWhereAt(init, i, ep) {
      assert i < |events| - 1;
    }
  }

  lemma NoDestinations()
    ensures Destinations<SinglePlacement>([]) == {}
  {
  }

  // ----- What gets lost -----

  /** A key of the full cluster-scoped table: EdgePlacement, resource and name, destination. */
  type ClusterScopedKey = WhatWhereFullKey<string>

  function Bare(k: ClusterScopedKey): WorkloadPartID {
    WorkloadPartID(k.1.0, "", k.1.1)
  }

  /** The EdgePlacement of the key calls for its object to go to its destination. */
  predicate Wants(goes: Mailbox, pc: PerCluster, k: ClusterScopedKey) {
    goes(k.1.0) && Bare(k) in At(pc, k.0).downsync && k.2 in At(pc, k.0).where
  }

  /** Some object in a namespace, of the resource and name of the key, is dropped. */
  ghost predicate DropsTwin(before: map<WorkloadPartID, WorkloadPartDetails>,
                            after: map<WorkloadPartID, WorkloadPartDetails>, k: ClusterScopedKey)
  {
    exists ns :: ns != "" && WorkloadPartID(k.1.0, ns, k.1.1) in before && WorkloadPartID(k.1.0, ns, k.1.1) !in after
  }

  /** Whether the key, if it is wanted after the event, is then lost; `was` tells whether it was before. */
  ghost predicate Loses(pc: PerCluster, was: bool, e: Event, k: ClusterScopedKey) {
    if e.ep != k.0 then was
    else
      var p := At(pc, k.0);
      match e
      case WhatPut(_, downsync, _) => k.2 in p.where && DropsTwin(p.downsync, downsync, k)
      case WhatDelete(_) => false
      case WherePut(_, where) => was && k.2 in p.where && k.2 in Destinations(where)
      case WhereDelete(_) => false
  }

  /** The wanted keys that are lost after an event are those that it loses. */
  ghost predicate LostAsSaid(goes: Mailbox, pc: PerCluster, lost: set<ClusterScopedKey>, e: Event,
                             lost': set<ClusterScopedKey>) {
    forall k: ClusterScopedKey | Wants(goes, Next(pc, e), k) :: k in lost' <==> Loses(pc, k in lost, e, k)
  }

  ghost predicate NoneLost(goes: Mailbox, pc: PerCluster, lost: set<ClusterScopedKey>) {
    forall k: ClusterScopedKey | Wants(goes, pc, k) :: k !in lost
  }

  lemma TwinsCollide(goes: Mailbox, before: map<WorkloadPartID, WorkloadPartDetails>,
                     after: map<WorkloadPartID, WorkloadPartDetails>, where: set<SinglePlacement>, ep: ExternalName)
    ensures Collides(goes, before, after, where) <==>
            exists k: ClusterScopedKey ::
                k.0 == ep && goes(k.1.0) && Bare(k) in after && k.2 in where && DropsTwin(before, after, k)
  {
    if Collides(goes, before, after, where) {
      var part :| part in before && part !in after && goes(part.gr) && WorkloadPartID(part.gr, "", part.name) in after;
      var sp :| sp in where;
      var k: ClusterScopedKey := (ep, (part.gr, part.name), sp);
      assert part == WorkloadPartID(k.1.0, part.namespace, k.1.1) && part.namespace != "";
      assert DropsTwin(before, after, k);
    }
  }

  lemma AtNext(pc: PerCluster, e: Event)
    ensures forall ep | ep != e.ep :: At(Next(pc, e), ep) == At(pc, ep)
    ensures e.WhatPut? ==> At(Next(pc, e), e.ep) == At(pc, e.ep).(downsync := e.downsync, upsync := e.upsync)
    ensures e.WhatDelete? ==> At(Next(pc, e), e.ep) == At(pc, e.ep).(downsync := map[], upsync := [])
    ensures e.WherePut? ==> At(Next(pc, e), e.ep) == At(pc, e.ep).(where := Destinations(e.where))
    ensures e.WhereDelete? ==> At(Next(pc, e), e.ep) == At(pc, e.ep).(where := {})
  {
    NoDestinations();
    SetAt(pc, e.ep, At(Next(pc, e), e.ep));
  }

  /** A delete is like an empty "what" or "where". */
  lemma DeletesLose(goes: Mailbox, pc: PerCluster, lost: set<ClusterScopedKey>, ep: ExternalName,
                    lost': set<ClusterScopedKey>)
    ensures LostAsSaid(goes, pc, lost, Event.WhatPut(ep, map[], []), lost') ==>
              LostAsSaid(goes, pc, lost, Event.WhatDelete(ep), lost')
    ensures LostAsSaid(goes, pc, lost, Event.WherePut(ep, []), lost') ==>
              LostAsSaid(goes, pc, lost, Event.WhereDelete(ep), lost')
    ensures ep.cluster !in pc ==> LostAsSaid(goes, pc, lost, Event.WhatDelete(ep), lost)
    ensures ep.cluster !in pc ==> LostAsSaid(goes, pc, lost, Event.WhereDelete(ep), lost)
  {
    NoDestinations();
    AtNext(pc, Event.WhatPut(ep, map[], []));
    AtNext(pc, Event.WhatDelete(ep));
    AtNext(pc, Event.WherePut(ep, []));
    AtNext(pc, Event.WhereDelete(ep));
    hide At, Next;
  }

  /**
   From any state: a new "what" leaves all that it wants of the cluster-scoped table in place exactly without
   a collision.
   */
  lemma CollisionDecides(goes: Mailbox, pc: PerCluster, lost: set<ClusterScopedKey>, e: Event,
                         lost': set<ClusterScopedKey>)
    requires e.WhatPut? && LostAsSaid(goes, pc, lost, e, lost')
    ensures (forall k: ClusterScopedKey | k.0 == e.ep && Wants(goes, Next(pc, e), k) :: k !in lost') <==>
              !Harmful(goes, pc, e)
  {
    AtNext(pc, e);
    var p := At(pc, e.ep);
    TwinsCollide(goes, p.downsync, e.downsync, p.where, e.ep);
    if Harmful(goes, pc, e) {
      var k: ClusterScopedKey :|
        k.0 == e.ep && goes(k.1.0) && Bare(k) in e.downsync && k.2 in p.where && DropsTwin(p.downsync, e.downsync, k);
      assert Wants(goes, Next(pc, e), k);
    }
  }

  lemma HarmDecides(goes: Mailbox, pc: PerCluster, lost: set<ClusterScopedKey>, e: Event, lost': set<ClusterScopedKey>)
    requires NoneLost(goes, pc, lost) && LostAsSaid(goes, pc, lost, e, lost')
    ensures NoneLost(goes, Next(pc, e), lost') <==> !Harmful(goes, pc, e)
  {
    AtNext(pc, e);
    if e.WhatPut? {
      CollisionDecides(goes, pc, lost, e, lost');
    }
    forall k: ClusterScopedKey | Wants(goes, Next(pc, e), k) && (k.0 != e.ep || !e.WhatPut?)
      ensures k !in lost'
    {
      assert Loses(pc, k in lost, e, k) ==> Wants(goes, pc, k);
    }
  }

  /** Event by event, from any state. */
  ghost predicate MissingFrom(pc: PerCluster, lost: set<ClusterScopedKey>, events: seq<Event>, k: ClusterScopedKey) {
    if events == [] then k in lost
    else
      var init := events[..|events| - 1];
      Loses(AfterEvents(pc, init), MissingFrom(pc, lost, init, k), events[|events| - 1], k)
  }

  /**
   Over a whole run from nothing: at the latest "what" of the EdgePlacement an object in a namespace,
   of the resource and name of the key, was dropped, and the destination was among those of the
   EdgePlacement then and has been ever since.
   */
  ghost predicate Missing(events: seq<Event>, k: ClusterScopedKey) {
    exists i :: 0 <= i < |events| && MissingSince(events, i, k)
  }

  ghost predicate MissingSince(events: seq<Event>, i: nat, k: ClusterScopedKey)
    requires i < |events|
  {
    && events[i].ep == k.0 && events[i].WhatPut? && DropsTwin(LatestWhat(events[..i], k.0).0, events[i].downsync, k)
    && (forall j | i < j < |events| && events[j].ep == k.0 :: events[j].WherePut? || events[j].WhereDelete?)
    && (forall j | i <= j <= |events| :: k.2 in LatestWhere(events[..j], k.0))
  }

  lemma SincePrefix(init: seq<Event>, last: Event, i: nat, k: ClusterScopedKey)
    requires i < |init|
    ensures var events := init + [last];
            MissingSince(events, i, k) <==>
            && MissingSince(init, i, k) && (last.ep == k.0 ==> last.WherePut? || last.WhereDelete?)
            && k.2 in LatestWhere(events, k.0)
  {
    hide LatestWhere, LatestWhat, DropsTwin;
    var events := init + [last];
    assert forall j | 0 <= j <= |init| :: events[..j] == init[..j];
    assert events[..|events|] == events;
    assert forall j | 0 <= j < |init| :: events[j] == init[j];
    assert events[|init|] == last;
  }

  /** The two accounts of what is missing agree. */
  lemma {:induction false} MissingIsMissingFrom(events: seq<Event>, k: ClusterScopedKey)
    ensures Missing(events, k) <==> MissingFrom(map[], {}, events, k)
  {
    if events != [] {
      var n := |events| - 1;
      var init, last := events[..n], events[n];
      assert events == init + [last] && events[..|events|] == events;
      MissingIsMissingFrom(init, k);
      OnlyTheLatestCounts(init, k.0);
      OnlyTheLatestCounts(events, k.0);
      forall i | 0 <= i < n {
        SincePrefix(init, last, i, k);
      }
      StillThereIfMissing(init, k);
      MissingAtLast(init, last, k);
    }
  }

  lemma StillThereIfMissing(events: seq<Event>, k: ClusterScopedKey)
    ensures Missing(events, k) ==> k.2 in LatestWhere(events, k.0)
  {
    assert events[..|events|] == events;
  }

  lemma MissingAtLast(init: seq<Event>, last: Event, k: ClusterScopedKey)
    ensures MissingSince(init + [last], |init|, k) <==>
            && last.ep == k.0 && last.WhatPut? && DropsTwin(LatestWhat(init, k.0).0, last.downsync, k)
            && k.2 in LatestWhere(init, k.0)
  {
    hide LatestWhere, LatestWhat, DropsTwin;
    var events := init + [last];
    assert events[..|init|] == init && events[|init|] == last && events[..|events|] == events;
    assert forall j | |init| <= j <= |events| :: events[..j] == init || events[..j] == events;
    if last.ep == k.0 && last.WhatPut? {
      WhatKeepsWhere(init, last, k.0);
      var there := k.2 in LatestWhere(init, k.0);
      assert there <==> forall j | |init| <= j <= |events| :: k.2 in LatestWhere(events[..j], k.0);
    }
  }

  lemma WhatKeepsWhere(init: seq<Event>, last: Event, ep: ExternalName)
    requires last.WhatPut?
    ensures LatestWhere(init + [last], ep) == LatestWhere(init, ep)
  {
    assert (init + [last])[..|init|] == init;
  }

  /** The set `lost` has, of the wanted keys, exactly those that the run has made go missing. */
  ghost predicate Accounts(goes: Mailbox, pc: PerCluster, lost0: set<ClusterScopedKey>, events: seq<Event>,
                           lost: set<ClusterScopedKey>) {
    forall k | Wants(goes, AfterEvents(pc, events), k) :: k in lost <==> MissingFrom(pc, lost0, events, k)
  }

  lemma AccountsAtFirst(goes: Mailbox, pc: PerCluster, lost: set<ClusterScopedKey>)
    ensures Accounts(goes, pc, lost, [], lost)
  {
  }

  lemma AccountsNext(goes: Mailbox, pc: PerCluster, lost0: set<ClusterScopedKey>, events: seq<Event>, e: Event,
                     lost: set<ClusterScopedKey>, lost': set<ClusterScopedKey>)
    requires Accounts(goes, pc, lost0, events, lost) && LostAsSaid(goes, AfterEvents(pc, events), lost, e, lost')
    ensures Accounts(goes, pc, lost0, events + [e], lost')
  {
    hide AfterEvents, Next, At, DropsTwin, MissingFrom;
    var now := AfterEvents(pc, events);
    AfterOneMore(pc, lost0, events, e);
    AtNext(now, e);
    forall k: ClusterScopedKey | Wants(goes, Next(now, e), k)
      ensures Loses(now, k in lost, e, k) <==> Loses(now, MissingFrom(pc, lost0, events, k), e, k)
    {
      assert e.ep != k.0 || (e.WherePut? && k.2 in At(now, k.0).where) ==> Wants(goes, now, k);
    }
  }

  lemma AfterOneMore(pc: PerCluster, lost: set<ClusterScopedKey>, events: seq<Event>, e: Event)
    ensures AfterEvents(pc, events + [e]) == Next(AfterEvents(pc, events), e)
    ensures forall k :: MissingFrom(pc, lost, events + [e], k) <==>
              Loses(AfterEvents(pc, events), MissingFrom(pc, lost, events, k), e, k)
  {
    assert (events + [e])[..|events|] == events;
  }

  // ----- Runs in which nothing can get lost -----

  /** Every resource is either namespaced or cluster-scoped throughout the run. */
  ghost predicate OneScope(namespaced: GroupResource -> bool, events: seq<Event>) {
    forall i, part | 0 <= i < |events| && events[i].WhatPut? && part in events[i].downsync ::
        part.namespace != "" <==> namespaced(part.gr)
  }

  lemma {:induction false} LatestHasOneScope(namespaced: GroupResource -> bool, events: seq<Event>, ep: ExternalName)
    requires OneScope(namespaced, events)
    ensures forall part | part in LatestWhat(events, ep).0 :: part.namespace != "" <==> namespaced(part.gr)
  {
    if events != [] {
      LatestHasOneScope(namespaced, events[..|events| - 1], ep);
    }
  }

  /** If every resource has one scope then no event is harmful. */
  lemma {:induction false} OneScopeIsHarmless(goes: Mailbox, namespaced: GroupResource -> bool, events: seq<Event>)
    requires OneScope(namespaced, events)
    ensures Harmless(goes, map[], events)
  {
    if events != [] {
      var init, last := events[..|events| - 1], events[|events| - 1];
      OneScopeIsHarmless(goes, namespaced, init);
      OnlyTheLatestCounts(init, last.ep);
      LatestHasOneScope(namespaced, init, last.ep);
    }
  }
}
