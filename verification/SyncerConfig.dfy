/**
 The SyncerConfig objects that tell a syncer what to do (pkg/placement/workload-projector.go):
 the relations wanted for a destination, the spec that is written for them, and the judgement
 whether a spec that was read back is still good.
 */
module SyncerConfig {
  import opened Changes
  import opened FactoredMaps
  import opened IndexedSets
  import opened PlacementTypes
  import opened WorkloadProjector

  /** For each resource, its API version and its objects. */
  type Wanted<Obj> = map<GroupResource, (string, set<Obj>)>

  datatype Relations = Relations(namespaced: Wanted<NamespacedName>, clusterScoped: Wanted<string>,
                                 upsyncs: set<UpsyncSet>)

  datatype NamespaceAndNames = NamespaceAndNames(namespace: string, names: seq<string>)

  datatype NamespacedObjects = NamespacedObjects(gr: GroupResource, apiVersion: string,
                                                 objectsByNamespace: seq<NamespaceAndNames>)

  datatype ClusterScopedObjects = ClusterScopedObjects(gr: GroupResource, apiVersion: string, objects: seq<string>)

  datatype Spec = Spec(namespacedObjects: seq<NamespacedObjects>, clusterScope: seq<ClusterScopedObjects>,
                       upsync: seq<UpsyncSet>)

  // ----- What a spec says -----

  function NamesIn(nans: seq<NamespaceAndNames>): set<NamespacedName> {
    set i, j | 0 <= i < |nans| && 0 <= j < |nans[i].names| :: (nans[i].namespace, nans[i].names[j])
  }

  /** A resource that is listed repeatedly has the objects of all its entries, and the version of the first one. */
  function DecodeNamespaced(l: seq<NamespacedObjects>): Wanted<NamespacedName> {
    if l == [] then map[]
    else
      var have, last := DecodeNamespaced(l[..|l| - 1]), l[|l| - 1];
      if last.gr in have
      then have[last.gr := (have[last.gr].0, have[last.gr].1 + NamesIn(last.objectsByNamespace))]
      else have[last.gr := (last.apiVersion, NamesIn(last.objectsByNamespace))]
  }

  /** A resource that is listed repeatedly has the objects and the version of its last entry. */
  function DecodeClusterScoped(l: seq<ClusterScopedObjects>): Wanted<string> {
    if l == [] then map[]
    else
      var last := l[|l| - 1];
      DecodeClusterScoped(l[..|l| - 1])[last.gr := (last.apiVersion, Elements(last.objects))]
  }

  function Decode(spec: Spec): Relations {
    Relations(DecodeNamespaced(spec.namespacedObjects), DecodeClusterScoped(spec.clusterScope), Elements(spec.upsync))
  }

  /** No resource and no upsync is listed twice. */
  ghost predicate OneEach(spec: Spec) {
    && (forall i, j | 0 <= i < j < |spec.namespacedObjects| ::
          spec.namespacedObjects[i].gr != spec.namespacedObjects[j].gr)
    && (forall i, j | 0 <= i < j < |spec.clusterScope| :: spec.clusterScope[i].gr != spec.clusterScope[j].gr)
    && Distinct(spec.upsync)
  }

  predicate Lists(l: seq<NamespacedObjects>, i: int, gr: GroupResource) {
    0 <= i < |l| && l[i].gr == gr
  }

  lemma {:induction false} DecodedNamespaced(l: seq<NamespacedObjects>, gr: GroupResource)
    ensures gr in DecodeNamespaced(l) <==> exists i :: Lists(l, i, gr)
    ensures gr in DecodeNamespaced(l) ==> forall o ::
              o in DecodeNamespaced(l)[gr].1 <==> exists i :: Lists(l, i, gr) && o in NamesIn(l[i].objectsByNamespace)
    ensures forall i | Lists(l, i, gr) && (forall h | 0 <= h < i :: !Lists(l, h, gr)) ::
              DecodeNamespaced(l)[gr].0 == l[i].apiVersion
  {
    if l != [] {
      hide NamesIn;
      var init := l[..|l| - 1];
      DecodedNamespaced(init, gr);
      assert forall i :: Lists(l, i, gr) <==> Lists(init, i, gr) || (i == |init| && l[i].gr == gr);
    }
  }

  lemma {:induction false} DecodedClusterScoped(l: seq<ClusterScopedObjects>)
    ensures forall gr :: gr in DecodeClusterScoped(l) <==> exists i :: 0 <= i < |l| && l[i].gr == gr
    ensures forall i | 0 <= i < |l| && (forall h | i < h < |l| :: l[h].gr != l[i].gr) ::
              DecodeClusterScoped(l)[l[i].gr] == (l[i].apiVersion, Elements(l[i].objects))
  {
    if l != [] {
      var init := l[..|l| - 1];
      DecodedClusterScoped(init);
      assert forall i | 0 <= i < |l| :: (i < |init| && l[i] == init[i]) || i == |init|;
    }
  }

  // ----- What is wanted for a destination -----

  function VersionFor(modes: map<GroupResource, string>, gr: GroupResource): string {
    if gr in modes then modes[gr] else ""
  }

  /** The object goes to the destination, from some source. */
  ghost predicate Distributed<Obj>(dist: map<DistributionTuple<Obj>, DistributionBits>, dest: SinglePlacement,
                                   gr: GroupResource, o: Obj) {
    exists source: string :: (ProjectionModeKey(gr, dest), (source, o)) in dist
  }

  /** The objects that the record of a destination has are those that go there from somewhere. */
  lemma ObjectsFor<Obj(!new)>(tables: ScopeTables<Obj>, dest: SinglePlacement, gr: GroupResource, o: Obj)
    requires tables.Valid()
    ensures var sync := tables.distributionsForSync;
            dest in sync.records && dest in sync.outer && (gr, o) in sync.records[dest] <==>
            Distributed(tables.Distributions(), dest, gr, o)
  {
    hide ScopeTables.Valid, FactoredMap.Valid, Bijective;
    var sync := tables.distributionsForSync;
    if dest in sync.records && dest in sync.outer && (gr, o) in sync.records[dest] {
      var source := SomeSource(tables, dest, gr, o);
      tables.UpThenDownLookup(dest, gr, o, source);
    }
    if Distributed(tables.Distributions(), dest, gr, o) {
      var source: string :| (ProjectionModeKey(gr, dest), (source, o)) in tables.Distributions();
      tables.UpThenDownLookup(dest, gr, o, source);
    }
  }

  lemma SomeSource<Obj(!new)>(tables: ScopeTables<Obj>, dest: SinglePlacement, gr: GroupResource, o: Obj)
    returns (source: string)
    requires tables.Valid() && dest in tables.distributionsForSync.records
    requires (gr, o) in tables.distributionsForSync.records[dest]
    ensures Has(tables.distributionsForSync.records[dest], (gr, o), source)
  {
    hide FactoredMap.Valid, RecordIndex3.Valid, Bijective, Represents;
    var inner := tables.distributionsForSync.records[dest][(gr, o)];
    assert inner != map[];
    source :| source in inner;
  }

  lemma OuterHasRecord<Obj(!new)>(tables: ScopeTables<Obj>, dest: SinglePlacement)
    requires tables.Valid() && dest in tables.distributionsForSync.outer
    ensures dest in tables.distributionsForSync.records
  {
    hide FactoredMap.Valid, RecordIndex3.Valid, Bijective, Represents, Stands2;
  }

  lemma ModesFor<Obj(!new)>(tables: ScopeTables<Obj>, dest: SinglePlacement, gr: GroupResource)
    requires tables.Valid()
    ensures var key, modes := ProjectionModeKey(gr, dest), Inner(tables.modesForSync.outer, dest);
            && (gr in modes <==> key in tables.Modes())
            && (gr in modes ==> modes[gr] == tables.Modes()[key])
  {
    hide RecordIndex2.Valid, RecordIndex3.Valid, Bijective;
    assert tables.modesForSync.keyDecomposer.factor(ProjectionModeKey(gr, dest)) == (dest, gr);
  }

  /**
   The objects that go to the edge clusters, grouped by resource, with the version that the modes have for
   the resource.
   */
  method WantedFor<Obj(==, !new)>(tables: ScopeTables<Obj>, dest: SinglePlacement,
                                  goesToEdge: GroupResource -> bool) returns (wanted: Wanted<Obj>)
    requires tables.Valid()
    ensures forall gr, o :: gr in wanted && o in wanted[gr].1 <==>
              goesToEdge(gr) && Distributed(tables.Distributions(), dest, gr, o)
    ensures forall gr | gr in wanted :: wanted[gr].1 != {}
    ensures forall gr | gr in wanted ::
              var key := ProjectionModeKey(gr, dest);
              wanted[gr].0 == if key in tables.Modes() then tables.Modes()[key] else ""
  {
    hide ScopeTables.Valid, Distributed;
    wanted := map[];
    var sync := tables.distributionsForSync;
    if dest !in sync.outer {
      forall gr, o
        ensures !Distributed(tables.Distributions(), dest, gr, o)
      {
        ObjectsFor(tables, dest, gr, o);
      }
      return;
    }
    var modes := Inner(tables.modesForSync.outer, dest);
    OuterHasRecord(tables, dest);
    var objs := VisitOrder(sync.records[dest].Keys);
    wanted := Grouped(objs, modes, goesToEdge);
    forall gr | gr in wanted
      ensures var key := ProjectionModeKey(gr, dest);
              wanted[gr].0 == if key in tables.Modes() then tables.Modes()[key] else ""
    {
      ModesFor(tables, dest, gr);
    }
    forall gr, o
      ensures (gr, o) in objs <==> Distributed(tables.Distributions(), dest, gr, o)
    {
      ObjectsFor(tables, dest, gr, o);
      assert (gr, o) in objs <==> (gr, o) in Elements(objs);
    }
  }

  method Grouped<Obj(==)>(objs: seq<(GroupResource, Obj)>, modes: map<GroupResource, string>,
                          goesToEdge: GroupResource -> bool)
    returns (wanted: Wanted<Obj>)
    ensures forall gr, o :: gr in wanted && o in wanted[gr].1 <==> goesToEdge(gr) && (gr, o) in objs
    ensures forall gr | gr in wanted :: wanted[gr].1 != {} && wanted[gr].0 == VersionFor(modes, gr)
  {
    wanted := map[];
    for i := 0 to |objs|
      invariant forall gr, o :: gr in wanted && o in wanted[gr].1 <==> goesToEdge(gr) && (gr, o) in objs[..i]
      invariant forall gr | gr in wanted :: wanted[gr].1 != {} && wanted[gr].0 == VersionFor(modes, gr)
    {
      assert objs[..i + 1] == objs[..i] + [objs[i]];
      var (gr, o) := objs[i];
      if goesToEdge(gr) {
        var (version, known) := if gr in wanted then wanted[gr] else (VersionFor(modes, gr), {});
        wanted := wanted[gr := (version, known + {o})];
      }
    }
    assert objs[..|objs|] == objs;
  }

  // ----- Writing a spec -----

  method ByNamespace(objs: set<NamespacedName>) returns (nans: seq<NamespaceAndNames>)
    ensures NamesIn(nans) == objs
    ensures forall i, j | 0 <= i < j < |nans| :: nans[i].namespace != nans[j].namespace
    ensures forall i | 0 <= i < |nans| :: nans[i].names != [] && Distinct(nans[i].names)
  {
    var index := Indexed(objs);
    var namespaces := VisitOrder(index.Keys);
    assert forall ns :: ns in namespaces <==> ns in Elements(namespaces);
    nans := [];
    for i := 0 to |namespaces|
      invariant |nans| == i
      invariant forall h | 0 <= h < i ::
                  nans[h].namespace == namespaces[h] && Elements(nans[h].names) == index[namespaces[h]]
      invariant forall h | 0 <= h < i :: nans[h].names != [] && Distinct(nans[h].names)
    {
      var names := VisitOrder(index[namespaces[i]]);
      nans := nans + [NamespaceAndNames(namespaces[i], names)];
    }
    ListsIndex(objs, index, namespaces, nans);
  }

  /** A relation between namespaces and names, indexed by namespace. */
  method Indexed(objs: set<NamespacedName>) returns (index: Index<string, string>)
    ensures forall o :: o in objs <==> Holds(index, o.0, o.1)
    ensures NoEmptyBucket(index)
  {
    var all := VisitOrder(objs);
    index := map[];
    for i := 0 to |all|
      invariant forall o: NamespacedName :: o in Elements(all[..i]) <==> Holds(index, o.0, o.1)
      invariant NoEmptyBucket(index)
    {
      PrefixElements(all, i);
      index := AddTo(index, all[i].0, all[i].1);
    }
    assert all[..|all|] == all;
  }

  lemma ListsIndex(objs: set<NamespacedName>, index: Index<string, string>, namespaces: seq<string>,
                   nans: seq<NamespaceAndNames>)
    requires forall o :: o in objs <==> Holds(index, o.0, o.1)
    requires forall ns :: ns in namespaces <==> ns in index
    requires |nans| == |namespaces|
    requires forall h | 0 <= h < |nans| ::
               nans[h].namespace == namespaces[h] && Elements(nans[h].names) == index[namespaces[h]]
    ensures NamesIn(nans) == objs
  {
    forall o: NamespacedName
      ensures o in NamesIn(nans) <==> o in objs
    {
      if o in objs {
        var h :| 0 <= h < |namespaces| && namespaces[h] == o.0;
        assert o.1 in Elements(nans[h].names);
        var j :| 0 <= j < |nans[h].names| && nans[h].names[j] == o.1;
        assert (nans[h].namespace, nans[h].names[j]) == o;
      }
      if o in NamesIn(nans) {
        var i, j :| 0 <= i < |nans| && 0 <= j < |nans[i].names| && (nans[i].namespace, nans[i].names[j]) == o;
        assert nans[i].names[j] in Elements(nans[i].names);
      }
    }
    SameSet(NamesIn(nans), objs);
  }

  method BuildNamespaced(wanted: Wanted<NamespacedName>) returns (l: seq<NamespacedObjects>)
    ensures DecodeNamespaced(l) == wanted
    ensures forall i, j | 0 <= i < j < |l| :: l[i].gr != l[j].gr
  {
    var grs := VisitOrder(wanted.Keys);
    assert forall gr :: gr in grs <==> gr in Elements(grs);
    l := [];
    for i := 0 to |grs|
      invariant |l| == i
      invariant forall h | 0 <= h < i ::
                  l[h].gr == grs[h] && (l[h].apiVersion, NamesIn(l[h].objectsByNamespace)) == wanted[grs[h]]
    {
      var nans := ByNamespace(wanted[grs[i]].1);
      l := l + [NamespacedObjects(grs[i], wanted[grs[i]].0, nans)];
    }
    ListsNamespaced(wanted, grs, l);
  }

  lemma {:induction false} ListsNamespaced(wanted: Wanted<NamespacedName>, grs: seq<GroupResource>,
                                           l: seq<NamespacedObjects>)
    requires Distinct(grs) && (forall gr :: gr in grs <==> gr in wanted) && |l| == |grs|
    requires forall h | 0 <= h < |l| ::
               l[h].gr == grs[h] && (l[h].apiVersion, NamesIn(l[h].objectsByNamespace)) == wanted[grs[h]]
    ensures DecodeNamespaced(l) == wanted
  {
    var have := DecodeNamespaced(l);
    forall h | 0 <= h < |l|
      ensures grs[h] in have && have[grs[h]] == wanted[grs[h]]
    {
      var gr := grs[h];
      DecodedNamespaced(l, gr);
      assert Lists(l, h, gr);
      assert forall i :: Lists(l, i, gr) <==> i == h;
      SameSet(have[gr].1, wanted[gr].1);
    }
    forall gr
      ensures gr in have <==> gr in wanted
    {
      DecodedNamespaced(l, gr);
      if gr in wanted {
        var i :| 0 <= i < |grs| && grs[i] == gr;
        assert Lists(l, i, gr);
      }
    }
    SameMap(have, wanted);
  }

  method BuildClusterScoped(wanted: Wanted<string>) returns (l: seq<ClusterScopedObjects>)
    ensures DecodeClusterScoped(l) == wanted
    ensures forall i, j | 0 <= i < j < |l| :: l[i].gr != l[j].gr
    ensures forall i | 0 <= i < |l| :: Distinct(l[i].objects)
  {
    var grs := VisitOrder(wanted.Keys);
    assert forall gr :: gr in grs <==> gr in Elements(grs);
    l := [];
    for i := 0 to |grs|
      invariant |l| == i
      invariant forall h | 0 <= h < i ::
                  l[h].gr == grs[h] && (l[h].apiVersion, Elements(l[h].objects)) == wanted[grs[h]]
                      && Distinct(l[h].objects)
    {
      var objects := VisitOrder(wanted[grs[i]].1);
      l := l + [ClusterScopedObjects(grs[i], wanted[grs[i]].0, objects)];
    }
    ListsClusterScoped(wanted, grs, l);
  }

  lemma {:induction false} ListsClusterScoped(wanted: Wanted<string>, grs: seq<GroupResource>,
                                              l: seq<ClusterScopedObjects>)
    requires Distinct(grs) && (forall gr :: gr in grs <==> gr in wanted) && |l| == |grs|
    requires forall h | 0 <= h < |l| :: l[h].gr == grs[h] && (l[h].apiVersion, Elements(l[h].objects)) == wanted[grs[h]]
    ensures DecodeClusterScoped(l) == wanted
  {
    var have := DecodeClusterScoped(l);
    DecodedClusterScoped(l);
    assert forall h | 0 <= h < |l| :: grs[h] in have;
    forall h | 0 <= h < |l|
      ensures have[grs[h]] == wanted[grs[h]]
    {
      assert l[h].gr == grs[h];
    }
    SameMap(have, wanted);
  }

  /** Writes a spec for the relations; whatever the order of the visits, it says just what the relations say. */
  method SpecFromRelations(rels: Relations) returns (spec: Spec)
    ensures Decode(spec) == rels
    ensures OneEach(spec)
  {
    var namespaced := BuildNamespaced(rels.namespaced);
    var clusterScoped := BuildClusterScoped(rels.clusterScoped);
    var upsync := VisitOrder(rels.upsyncs);
    spec := Spec(namespaced, clusterScoped, upsync);
  }

  // ----- Judging a spec -----

  /** Set equality, by length and one inclusion. */
  method SetEqual<T(==)>(a: set<T>, b: set<T>) returns (eq: bool)
    ensures eq <==> a == b
  {
    if |a| != |b| {
      return false;
    }
    var xs := VisitOrder(a);
    for i := 0 to |xs|
      invariant Elements(xs[..i]) <= b
    {
      PrefixElements(xs, i);
      if xs[i] !in b {
        assert xs[i] in Elements(xs);
        return false;
      }
    }
    assert xs[..|xs|] == xs;
    SubsetOfSameSize(a, b);
    return true;
  }

  lemma SubsetOfSameSize<T>(a: set<T>, b: set<T>)
    requires a <= b && |a| == |b|
    ensures a == b
  {
    assert |b - a| == |b| - |a|;
  }

  /** Whether there is no difference to enumerate, in either direction. */
  method NoDifference<Obj(==)>(good: Wanted<Obj>, have: Wanted<Obj>) returns (same: bool)
    ensures same <==> good == have
  {
    same := true;
    var goods := VisitOrder(good.Keys);
    assert forall gr :: gr in goods <==> gr in Elements(goods);
    for i := 0 to |goods|
      invariant same <==> forall gr | gr in goods[..i] :: gr in have && good[gr] == have[gr]
    {
      assert goods[..i + 1] == goods[..i] + [goods[i]];
      var gr := goods[i];
      if gr !in have {
        same := false;
      } else {
        var eq := SetEqual(have[gr].1, good[gr].1);
        if !(have[gr].0 == good[gr].0 && eq) {
          same := false;
        }
      }
    }
    assert goods[..|goods|] == goods;
    ghost var within := same;
    var haves := VisitOrder(have.Keys);
    assert forall gr :: gr in haves <==> gr in Elements(haves);
    for i := 0 to |haves|
      invariant same <==> within && forall gr | gr in haves[..i] :: gr in good
    {
      assert haves[..i + 1] == haves[..i] + [haves[i]];
      if haves[i] !in good {
        same := false;
      }
    }
    assert haves[..|haves|] == haves;
  }

  /** The namespaced objects of a spec, all entries united. */
  method HaveNamespaced(l: seq<NamespacedObjects>) returns (have: Wanted<NamespacedName>)
    ensures have == DecodeNamespaced(l)
  {
    have := map[];
    for i := 0 to |l|
      invariant have == DecodeNamespaced(l[..i])
    {
      assert l[..i + 1][..i] == l[..i];
      var cr := l[i];
      var nans := {};
      for h := 0 to |cr.objectsByNamespace|
        invariant nans == NamesIn(cr.objectsByNamespace[..h])
      {
        var nan := cr.objectsByNamespace[h];
        assert cr.objectsByNamespace[..h + 1] == cr.objectsByNamespace[..h] + [nan];
        MoreNames(cr.objectsByNamespace[..h], nan);
        nans := nans + set name | name in nan.names :: (nan.namespace, name);
      }
      assert cr.objectsByNamespace[..|cr.objectsByNamespace|] == cr.objectsByNamespace;
      if cr.gr in have {
        have := have[cr.gr := (have[cr.gr].0, have[cr.gr].1 + nans)];
      } else {
        have := have[cr.gr := (cr.apiVersion, nans)];
      }
    }
    assert l[..|l|] == l;
  }

  lemma MoreNames(nans: seq<NamespaceAndNames>, nan: NamespaceAndNames)
    ensures NamesIn(nans + [nan]) == NamesIn(nans) + set name | name in nan.names :: (nan.namespace, name)
  {
    var all, news := nans + [nan], set name | name in nan.names :: (nan.namespace, name);
    forall o
      ensures o in NamesIn(all) <==> o in NamesIn(nans) + news
    {
      if o in NamesIn(nans) {
        var i, j :| 0 <= i < |nans| && 0 <= j < |nans[i].names| && (nans[i].namespace, nans[i].names[j]) == o;
        assert all[i] == nans[i];
      }
      if o in news {
        var j :| 0 <= j < |nan.names| && (nan.namespace, nan.names[j]) == o;
        assert all[|nans|] == nan;
      }
    }
    SameSet(NamesIn(all), NamesIn(nans) + news);
  }

  /** A spec is good exactly when it says what is wanted. */
  method IsGood(spec: Spec, rels: Relations) returns (good: bool)
    ensures good <==> Decode(spec) == rels
  {
    var haveNamespaced := HaveNamespaced(spec.namespacedObjects);
    var goodNamespaced := NoDifference(rels.namespaced, haveNamespaced);
    var haveClusterScoped: Wanted<string> := map[];
    for i := 0 to |spec.clusterScope|
      invariant haveClusterScoped == DecodeClusterScoped(spec.clusterScope[..i])
    {
      assert spec.clusterScope[..i + 1][..i] == spec.clusterScope[..i];
      var cr := spec.clusterScope[i];
      haveClusterScoped := haveClusterScoped[cr.gr := (cr.apiVersion, Elements(cr.objects))];
    }
    assert spec.clusterScope[..|spec.clusterScope|] == spec.clusterScope;
    var goodClusterScoped := NoDifference(rels.clusterScoped, haveClusterScoped);
    good := goodNamespaced && goodClusterScoped && rels.upsyncs == Elements(spec.upsync);
  }

  // ----- Keeping the stored spec good -----

  /** Writes only if there is no spec or it is not good; either way a good spec is stored afterwards. */
  method SyncConfigObject(stored: Option<Spec>, rels: Relations) returns (spec: Spec, written: bool)
    ensures Decode(spec) == rels
    ensures written <==> stored.None? || Decode(stored.value) != rels
    ensures !written ==> stored == Some(spec)
  {
    if stored.Some? {
      var good := IsGood(stored.value, rels);
      if good {
        return stored.value, false;
      }
    }
    spec := SpecFromRelations(rels);
    written := true;
  }

  /** What was written is judged good when it is read back, so while the relations stay there is at most one write. */
  method SyncsSettle(stored: Option<Spec>, rels: Relations, times: nat) returns (spec: Option<Spec>, writes: nat)
    ensures times > 0 ==> spec.Some? && Decode(spec.value) == rels
    ensures writes == if times > 0 && (stored.None? || Decode(stored.value) != rels) then 1 else 0
    ensures writes == 0 ==> spec == stored
  {
    spec, writes := stored, 0;
    for i := 0 to times
      invariant i > 0 ==> spec.Some? && Decode(spec.value) == rels
      invariant writes == if i > 0 && (stored.None? || Decode(stored.value) != rels) then 1 else 0
      invariant writes == 0 ==> spec == stored
    {
      var next, written := SyncConfigObject(spec, rels);
      spec := Some(next);
      writes := writes + if written then 1 else 0;
    }
  }
}
