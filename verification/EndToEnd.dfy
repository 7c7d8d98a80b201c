/**
 From the events of the API to what a syncer is told (pkg/placement), in terms of the fields of both: which entries
 the spec of a SyncerConfig has, given the latest words on every EdgePlacement.
 */
module EndToEnd {
  import opened Changes
  import opened PlacementTypes
  import opened PlacementHistory
  import opened SetBinder
  import opened SyncerConfig
  import opened Query
  import opened Pipeline

  /** By the latest words, the EdgePlacement calls for the object to go to the destination. */
  ghost predicate Told(events: seq<Event>, ep: ExternalName, part: WorkloadPartID, dest: SinglePlacement) {
    part in LatestWhat(events, ep).0 && dest in LatestWhere(events, ep)
  }

  /** The same, in an API version. */
  ghost predicate ToldIn(events: seq<Event>, ep: ExternalName, part: WorkloadPartID, dest: SinglePlacement,
                         version: string) {
    Told(events, ep, part, dest) && LatestWhat(events, ep).0[part].apiVersion == version
  }

  /** The EdgePlacement says so of some object of the resource, of this scope. */
  ghost predicate VersionTold(events: seq<Event>, dest: SinglePlacement, gr: GroupResource, namespaced: bool,
                              version: string) {
    exists ep, part: WorkloadPartID ::
      part.gr == gr && (part.namespace != "" <==> namespaced) && ToldIn(events, ep, part, dest, version)
  }

  ghost predicate UpsyncTold(events: seq<Event>, dest: SinglePlacement, u: UpsyncSet) {
    exists ep :: u in LatestWhat(events, ep).1 && dest in LatestWhere(events, ep)
  }

  predicate ListsNamespaced(spec: Spec, gr: GroupResource, ns: string, name: string) {
    exists i, j ::
      && 0 <= i < |spec.namespacedObjects| && spec.namespacedObjects[i].gr == gr
      && 0 <= j < |spec.namespacedObjects[i].objectsByNamespace|
      && spec.namespacedObjects[i].objectsByNamespace[j].namespace == ns
      && name in spec.namespacedObjects[i].objectsByNamespace[j].names
  }

  predicate ListsClusterScoped(spec: Spec, gr: GroupResource, name: string) {
    exists i :: 0 <= i < |spec.clusterScope| && spec.clusterScope[i].gr == gr && name in spec.clusterScope[i].objects
  }

  // ----- What a spec says -----

  lemma SaysNamespaced(spec: Spec, gr: GroupResource, ns: string, name: string)
    ensures ListsNamespaced(spec, gr, ns, name) <==>
            gr in Decode(spec).namespaced && (ns, name) in Decode(spec).namespaced[gr].1
  {
    hide DecodeNamespaced, DecodeClusterScoped;
    var l := spec.namespacedObjects;
    DecodedNamespaced(l, gr);
    if ListsNamespaced(spec, gr, ns, name) {
      var i, j :|
        && 0 <= i < |l| && l[i].gr == gr && 0 <= j < |l[i].objectsByNamespace|
        && l[i].objectsByNamespace[j].namespace == ns && name in l[i].objectsByNamespace[j].names;
      assert Lists(l, i, gr);
      var h :| 0 <= h < |l[i].objectsByNamespace[j].names| && l[i].objectsByNamespace[j].names[h] == name;
      assert (ns, name) in NamesIn(l[i].objectsByNamespace);
    }
    if gr in Decode(spec).namespaced && (ns, name) in Decode(spec).namespaced[gr].1 {
      var i :| Lists(l, i, gr) && (ns, name) in NamesIn(l[i].objectsByNamespace);
      var j, h :|
        && 0 <= j < |l[i].objectsByNamespace| && 0 <= h < |l[i].objectsByNamespace[j].names|
        && (l[i].objectsByNamespace[j].namespace, l[i].objectsByNamespace[j].names[h]) == (ns, name);
    }
  }

  lemma SaysVersion(spec: Spec, i: nat)
    requires OneEach(spec) && i < |spec.namespacedObjects|
    ensures var entry, w := spec.namespacedObjects[i], Decode(spec).namespaced;
            entry.gr in w && w[entry.gr].0 == entry.apiVersion
  {
    hide DecodeNamespaced, DecodeClusterScoped, NamesIn;
    var l := spec.namespacedObjects;
    DecodedNamespaced(l, l[i].gr);
    assert Lists(l, i, l[i].gr);
  }

  lemma SaysClusterScoped(spec: Spec, gr: GroupResource, name: string)
    requires OneEach(spec)
    ensures var w := Decode(spec).clusterScoped; ListsClusterScoped(spec, gr, name) <==> gr in w && name in w[gr].1
  {
    hide DecodeNamespaced, DecodeClusterScoped;
    var l := spec.clusterScope;
    DecodedClusterScoped(l);
    if gr in Decode(spec).clusterScoped {
      var i :| 0 <= i < |l| && l[i].gr == gr;
      assert DecodeClusterScoped(l)[l[i].gr] == (l[i].apiVersion, Elements(l[i].objects));
      assert forall h | 0 <= h < |l| && l[h].gr == gr :: h == i;
    }
  }

  lemma SaysClusterScopedVersion(spec: Spec, i: nat)
    requires OneEach(spec) && i < |spec.clusterScope|
    ensures var entry, w := spec.clusterScope[i], Decode(spec).clusterScoped;
            entry.gr in w && w[entry.gr].0 == entry.apiVersion
  {
    hide DecodeNamespaced, DecodeClusterScoped;
    DecodedClusterScoped(spec.clusterScope);
  }

  // ----- What is called for, by the latest words -----

  lemma NamespacedCall(goes: Mailbox, events: seq<Event>, dest: SinglePlacement, gr: GroupResource,
                       o: NamespacedName, source: string, e: string)
    ensures var q, t := Namespaced(goes, AfterEvents(map[], events)), (ProjectionModeKey(gr, dest), (source, o));
            var ep, part := ExternalName(source, e), WorkloadPartID(gr, o.0, o.1);
            && (Serves(q, iset{}, t, e) <==> o.0 != "" && goes(gr) && Told(events, ep, part, dest))
            && (Serves(q, iset{}, t, e) ==> DetailsOf(q, t, e) == LatestWhat(events, ep).0[part])
  {
    hide AfterEvents, LatestWhat, LatestWhere;
    OnlyTheLatestCounts(events, ExternalName(source, e));
  }

  lemma ClusterScopedCall(goes: Mailbox, events: seq<Event>, lost: set<ClusterScopedKey>, dest: SinglePlacement,
                          gr: GroupResource, o: string, source: string, e: string)
    requires Accounts(goes, map[], {}, events, lost)
    ensures var q, t := ClusterScoped(goes, AfterEvents(map[], events)), (ProjectionModeKey(gr, dest), (source, o));
            var ep, part := ExternalName(source, e), WorkloadPartID(gr, "", o);
            && (Serves(q, GoneWith(lost), t, e) <==>
                goes(gr) && Told(events, ep, part, dest) && !Missing(events, (ep, (gr, o), dest)))
            && (Serves(q, GoneWith(lost), t, e) ==> DetailsOf(q, t, e) == LatestWhat(events, ep).0[part])
  {
    hide AfterEvents, LatestWhat, LatestWhere, Missing, Accounts, GoneWith;
    var q, t := ClusterScoped(goes, AfterEvents(map[], events)), (ProjectionModeKey(gr, dest), (source, o));
    OnlyTheLatestCounts(events, ExternalName(source, e));
    if Calls(q, t, e) {
      LostIsMissing(goes, events, lost, t, e);
      assert (t, e) in MissingCalls(events) <==> Missing(events, KeyOf(t, e));
    }
  }

  lemma CalledNamespaced(goes: Mailbox, events: seq<Event>, dest: SinglePlacement, gr: GroupResource,
                         o: NamespacedName)
    ensures var q := Namespaced(goes, AfterEvents(map[], events));
            && (CalledFor(q, iset{}, dest, gr, o) <==>
                o.0 != "" && goes(gr) && exists ep :: Told(events, ep, WorkloadPartID(gr, o.0, o.1), dest))
            && (forall version | CalledForIn(q, iset{}, dest, gr, o, version) ::
                  VersionTold(events, dest, gr, true, version))
  {
    hide Namespaced, AfterEvents, Told, Calls, DetailsOf, LatestWhat, LatestWhere;
    var q := Namespaced(goes, AfterEvents(map[], events));
    forall source: string, e { NamespacedCall(goes, events, dest, gr, o, source, e); }
    if o.0 != "" && goes(gr) {
      if ep :| Told(events, ep, WorkloadPartID(gr, o.0, o.1), dest) {
        assert ep == ExternalName(ep.cluster, ep.name);
        assert Serves(q, iset{}, (ProjectionModeKey(gr, dest), (ep.cluster, o)), ep.name);
      }
    }
    forall version | CalledForIn(q, iset{}, dest, gr, o, version)
      ensures VersionTold(events, dest, gr, true, version)
    {
      var source: string, e :|
        var t := (ProjectionModeKey(gr, dest), (source, o));
        Serves(q, iset{}, t, e) && DetailsOf(q, t, e).apiVersion == version;
      NamespacedCall(goes, events, dest, gr, o, source, e);
      assert ToldIn(events, ExternalName(source, e), WorkloadPartID(gr, o.0, o.1), dest, version);
    }
  }

  lemma CalledClusterScoped(goes: Mailbox, events: seq<Event>, lost: set<ClusterScopedKey>, dest: SinglePlacement,
                            gr: GroupResource, o: string)
    requires Accounts(goes, map[], {}, events, lost)
    ensures var q := ClusterScoped(goes, AfterEvents(map[], events));
            && (CalledFor(q, GoneWith(lost), dest, gr, o) <==>
                goes(gr) && exists ep ::
                  Told(events, ep, WorkloadPartID(gr, "", o), dest) && !Missing(events, (ep, (gr, o), dest)))
            && (forall version | CalledForIn(q, GoneWith(lost), dest, gr, o, version) ::
                  VersionTold(events, dest, gr, false, version))
  {
    hide ClusterScoped, AfterEvents, Told, Calls, DetailsOf, LatestWhat, LatestWhere, Missing, GoneWith, Accounts;
    var q := ClusterScoped(goes, AfterEvents(map[], events));
    forall source: string, e { ClusterScopedCall(goes, events, lost, dest, gr, o, source, e); }
    if goes(gr) {
      if ep :| Told(events, ep, WorkloadPartID(gr, "", o), dest) && !Missing(events, (ep, (gr, o), dest)) {
        assert ep == ExternalName(ep.cluster, ep.name);
        assert Serves(q, GoneWith(lost), (ProjectionModeKey(gr, dest), (ep.cluster, o)), ep.name);
      }
    }
    forall version | CalledForIn(q, GoneWith(lost), dest, gr, o, version)
      ensures VersionTold(events, dest, gr, false, version)
    {
      var source: string, e :|
        var t := (ProjectionModeKey(gr, dest), (source, o));
        Serves(q, GoneWith(lost), t, e) && DetailsOf(q, t, e).apiVersion == version;
      ClusterScopedCall(goes, events, lost, dest, gr, o, source, e);
      assert ToldIn(events, ExternalName(source, e), WorkloadPartID(gr, "", o), dest, version);
    }
  }

  // ----- From events to spec -----

  /**
   From nothing, after any run of events, what the syncer of a destination is told: each namespaced object that the
   latest words on some EdgePlacement call for there, and no other; each cluster-scoped object that they call for
   and that has not gone missing, and no other; and each upsync. The versions are called for too.
   */
  method ConfigAfter(goes: Mailbox, edge: Mailbox, events: seq<Event>, dest: SinglePlacement) returns (spec: Spec)
    ensures forall gr, ns, name :: ListsNamespaced(spec, gr, ns, name) <==>
              && ns != "" && goes(gr) && edge(gr)
              && exists ep :: Told(events, ep, WorkloadPartID(gr, ns, name), dest)
    ensures forall gr, name :: ListsClusterScoped(spec, gr, name) <==>
              && goes(gr) && edge(gr)
              && exists ep ::
                   Told(events, ep, WorkloadPartID(gr, "", name), dest) && !Missing(events, (ep, (gr, name), dest))
    ensures forall u :: u in spec.upsync <==> UpsyncTold(events, dest, u)
    ensures forall i | 0 <= i < |spec.namespacedObjects| ::
              VersionTold(events, dest, spec.namespacedObjects[i].gr, true, spec.namespacedObjects[i].apiVersion)
    ensures forall i | 0 <= i < |spec.clusterScope| ::
              VersionTold(events, dest, spec.clusterScope[i].gr, false, spec.clusterScope[i].apiVersion)
    ensures OneEach(spec)
  {
    hide SetBinder.Valid, AfterEvents, Told, VersionTold, UpsyncTold, Missing, Accounts, Namespaced,
         ClusterScoped, WantedIs, GoneWith, OneEach, DecodeNamespaced, DecodeClusterScoped, CalledFor, CalledForIn,
         ListsNamespaced, ListsClusterScoped, DistributionsBut, ModesBut, AnswersDistributions, AnswersModes,
         AnswersUpsyncs, Harmless, MadeUpFor, ResourceMadeUpFor, MissingCalls, Wants, At;
    var b := Assemble(goes, events);
    spec := SyncerConfigFor(b, dest, edge);
    NamespacedEntries(goes, edge, events, dest, spec);
    ClusterScopedEntries(goes, edge, events, dest, b.lost, spec);
    UpsyncEntries(events, b.perCluster, dest, spec);
  }

  lemma NamespacedEntries(goes: Mailbox, edge: Mailbox, events: seq<Event>, dest: SinglePlacement, spec: Spec)
    requires OneEach(spec)
    requires WantedIs(Namespaced(goes, AfterEvents(map[], events)), iset{}, dest, edge, Decode(spec).namespaced)
    ensures forall gr, ns, name :: ListsNamespaced(spec, gr, ns, name) <==>
              && ns != "" && goes(gr) && edge(gr)
              && exists ep :: Told(events, ep, WorkloadPartID(gr, ns, name), dest)
    ensures forall i | 0 <= i < |spec.namespacedObjects| ::
              VersionTold(events, dest, spec.namespacedObjects[i].gr, true, spec.namespacedObjects[i].apiVersion)
  {
    hide AfterEvents, Told, VersionTold, Namespaced, OneEach, Decode, CalledFor, CalledForIn, ListsNamespaced;
    var q, w := Namespaced(goes, AfterEvents(map[], events)), Decode(spec).namespaced;
    forall gr, ns: string, name: string
      ensures ListsNamespaced(spec, gr, ns, name) <==>
              && ns != "" && goes(gr) && edge(gr)
              && exists ep :: Told(events, ep, WorkloadPartID(gr, ns, name), dest)
    {
      SaysNamespaced(spec, gr, ns, name);
      CalledNamespaced(goes, events, dest, gr, (ns, name));
    }
    forall i | 0 <= i < |spec.namespacedObjects|
      ensures VersionTold(events, dest, spec.namespacedObjects[i].gr, true, spec.namespacedObjects[i].apiVersion)
    {
      var gr := spec.namespacedObjects[i].gr;
      SaysVersion(spec, i);
      var o :| CalledForIn(q, iset{}, dest, gr, o, w[gr].0);
      CalledNamespaced(goes, events, dest, gr, o);
    }
  }

  lemma ClusterScopedEntries(goes: Mailbox, edge: Mailbox, events: seq<Event>, dest: SinglePlacement,
                             lost: set<ClusterScopedKey>, spec: Spec)
    requires OneEach(spec) && Accounts(goes, map[], {}, events, lost)
    requires WantedIs(ClusterScoped(goes, AfterEvents(map[], events)), GoneWith(lost), dest, edge,
                      Decode(spec).clusterScoped)
    ensures forall gr, name :: ListsClusterScoped(spec, gr, name) <==>
              && goes(gr) && edge(gr)
              && exists ep ::
                   Told(events, ep, WorkloadPartID(gr, "", name), dest) && !Missing(events, (ep, (gr, name), dest))
    ensures forall i | 0 <= i < |spec.clusterScope| ::
              VersionTold(events, dest, spec.clusterScope[i].gr, false, spec.clusterScope[i].apiVersion)
  {
    hide AfterEvents, Told, VersionTold, ClusterScoped, OneEach, Decode, CalledFor, CalledForIn, ListsClusterScoped,
         Missing, Accounts, GoneWith;
    var q, w := ClusterScoped(goes, AfterEvents(map[], events)), Decode(spec).clusterScoped;
    forall gr, name: string
      ensures ListsClusterScoped(spec, gr, name) <==>
              && goes(gr) && edge(gr)
              && exists ep ::
                   Told(events, ep, WorkloadPartID(gr, "", name), dest) && !Missing(events, (ep, (gr, name), dest))
    {
      SaysClusterScoped(spec, gr, name);
      CalledClusterScoped(goes, events, lost, dest, gr, name);
    }
    forall i | 0 <= i < |spec.clusterScope|
      ensures VersionTold(events, dest, spec.clusterScope[i].gr, false, spec.clusterScope[i].apiVersion)
    {
      var gr := spec.clusterScope[i].gr;
      SaysClusterScopedVersion(spec, i);
      var o :| CalledForIn(q, GoneWith(lost), dest, gr, o, w[gr].0);
      CalledClusterScoped(goes, events, lost, dest, gr, o);
    }
  }

  lemma UpsyncEntries(events: seq<Event>, pc: PerCluster, dest: SinglePlacement, spec: Spec)
    requires pc == AfterEvents(map[], events)
    requires forall u :: u in Decode(spec).upsyncs <==> exists ep :: u in At(pc, ep).upsync && dest in At(pc, ep).where
    ensures forall u :: u in spec.upsync <==> UpsyncTold(events, dest, u)
  {
    hide AfterEvents, At, UpsyncTold, DecodeNamespaced, DecodeClusterScoped;
    forall u
      ensures u in spec.upsync <==> UpsyncTold(events, dest, u)
    {
      UpsyncCalled(events, pc, dest, u);
      assert u in Decode(spec).upsyncs <==> u in spec.upsync;
    }
  }

  lemma UpsyncCalled(events: seq<Event>, pc: PerCluster, dest: SinglePlacement, u: UpsyncSet)
    requires pc == AfterEvents(map[], events)
    ensures UpsyncTold(events, dest, u) <==> exists ep :: u in At(pc, ep).upsync && dest in At(pc, ep).where
  {
    hide AfterEvents, At, LatestWhat, LatestWhere;
    if UpsyncTold(events, dest, u) {
      var ep :| u in LatestWhat(events, ep).1 && dest in LatestWhere(events, ep);
      OnlyTheLatestCounts(events, ep);
    }
    if ep :| u in At(pc, ep).upsync && dest in At(pc, ep).where {
      OnlyTheLatestCounts(events, ep);
    }
  }

  // ----- From events to tables -----

  /** Told, and, if the object is cluster-scoped, not gone missing. */
  ghost predicate Stands(events: seq<Event>, ep: ExternalName, part: WorkloadPartID, dest: SinglePlacement) {
    Told(events, ep, part, dest) && (part.namespace == "" ==> !Missing(events, (ep, (part.gr, part.name), dest)))
  }

  /** Some EdgePlacement of the source says so. */
  ghost predicate FromSource(events: seq<Event>, source: string, part: WorkloadPartID, dest: SinglePlacement) {
    exists e :: Stands(events, ExternalName(source, e), part, dest)
  }

  ghost predicate SingletonFrom(events: seq<Event>, source: string, part: WorkloadPartID, dest: SinglePlacement) {
    exists e ::
      && Stands(events, ExternalName(source, e), part, dest)
      && LatestWhat(events, ExternalName(source, e)).0[part].returnSingletonState
  }

  ghost predicate CreateOnlyFrom(events: seq<Event>, source: string, part: WorkloadPartID, dest: SinglePlacement) {
    exists e ::
      && Stands(events, ExternalName(source, e), part, dest)
      && LatestWhat(events, ExternalName(source, e)).0[part].createOnly
  }

  lemma NamespacedEntry(goes: Mailbox, events: seq<Event>,
                        dist: map<DistributionTuple<NamespacedName>, DistributionBits>, source: string,
                        part: WorkloadPartID, dest: SinglePlacement)
    requires DistributionsBut(Namespaced(goes, AfterEvents(map[], events)), iset{}, dist) && part.namespace != ""
    ensures var t := (ProjectionModeKey(part.gr, dest), (source, (part.namespace, part.name)));
            && (t in dist <==> goes(part.gr) && FromSource(events, source, part, dest))
            && (t in dist ==>
                  && (dist[t].returnSingletonState <==> SingletonFrom(events, source, part, dest))
                  && (dist[t].createOnly <==> CreateOnlyFrom(events, source, part, dest)))
  {
    hide Namespaced, AfterEvents, Told, Calls, DetailsOf, LatestWhat, LatestWhere, Missing;
    var o := (part.namespace, part.name);
    forall e { NamespacedCall(goes, events, dest, part.gr, o, source, e); }
    var t := (ProjectionModeKey(part.gr, dest), (source, o));
    assert part == WorkloadPartID(part.gr, o.0, o.1);
    assert forall e :: Serves(Namespaced(goes, AfterEvents(map[], events)), iset{}, t, e) <==>
             goes(part.gr) && Stands(events, ExternalName(source, e), part, dest);
  }

  lemma ClusterScopedEntry(goes: Mailbox, events: seq<Event>, dist: map<DistributionTuple<string>, DistributionBits>,
                           source: string, part: WorkloadPartID, dest: SinglePlacement, lost: set<ClusterScopedKey>)
    requires Accounts(goes, map[], {}, events, lost) && part.namespace == ""
    requires DistributionsBut(ClusterScoped(goes, AfterEvents(map[], events)), GoneWith(lost), dist)
    ensures var t := (ProjectionModeKey(part.gr, dest), (source, part.name));
            && (t in dist <==> goes(part.gr) && FromSource(events, source, part, dest))
            && (t in dist ==>
                  && (dist[t].returnSingletonState <==> SingletonFrom(events, source, part, dest))
                  && (dist[t].createOnly <==> CreateOnlyFrom(events, source, part, dest)))
  {
    hide ClusterScoped, AfterEvents, Told, Calls, DetailsOf, LatestWhat, LatestWhere, Missing, GoneWith, Accounts;
    forall e { ClusterScopedCall(goes, events, lost, dest, part.gr, part.name, source, e); }
    var t := (ProjectionModeKey(part.gr, dest), (source, part.name));
    assert part == WorkloadPartID(part.gr, "", part.name);
    assert forall e :: Serves(ClusterScoped(goes, AfterEvents(map[], events)), GoneWith(lost), t, e) <==>
             goes(part.gr) && Stands(events, ExternalName(source, e), part, dest);
  }

  /**
   From nothing, after any run of events, what is distributed from a source to a destination: an object that some
   EdgePlacement of that source calls for there, and no other, with the bits of all that do.
   */
  method TablesAfter(goes: Mailbox, events: seq<Event>) returns (b: SetBinder)
    ensures b.Valid()
    ensures forall source, part: WorkloadPartID, dest | part.namespace != "" ::
              var dist := b.organizer.namespaced.tables.Distributions();
              var t := (ProjectionModeKey(part.gr, dest), (source, (part.namespace, part.name)));
              && (t in dist <==> goes(part.gr) && FromSource(events, source, part, dest))
              && (t in dist ==>
                    && (dist[t].returnSingletonState <==> SingletonFrom(events, source, part, dest))
                    && (dist[t].createOnly <==> CreateOnlyFrom(events, source, part, dest)))
    ensures forall source, part: WorkloadPartID, dest | part.namespace == "" ::
              var dist := b.organizer.clusterScoped.tables.Distributions();
              var t := (ProjectionModeKey(part.gr, dest), (source, part.name));
              && (t in dist <==> goes(part.gr) && FromSource(events, source, part, dest))
              && (t in dist ==>
                    && (dist[t].returnSingletonState <==> SingletonFrom(events, source, part, dest))
                    && (dist[t].createOnly <==> CreateOnlyFrom(events, source, part, dest)))
  {
    hide SetBinder.Valid, AfterEvents, FromSource, SingletonFrom, CreateOnlyFrom, Accounts, Namespaced, ClusterScoped,
         GoneWith, DistributionsBut, ModesBut, AnswersModes, AnswersUpsyncs, Harmless, MadeUpFor, ResourceMadeUpFor,
         MissingCalls, Wants, Missing;
    b := Assemble(goes, events);
    ClusterScopedTablesAnswer(b);
    forall source, part: WorkloadPartID, dest | part.namespace != "" {
      NamespacedEntry(goes, events, b.organizer.namespaced.tables.Distributions(), source, part, dest);
    }
    forall source, part: WorkloadPartID, dest | part.namespace == "" {
      ClusterScopedEntry(goes, events, b.organizer.clusterScoped.tables.Distributions(), source, part, dest, b.lost);
    }
  }
}
