/** The values that the placement translator moves around (pkg/placement/declarations.go). */
module PlacementTypes {
  import opened Changes
  import opened FactoredMaps
  import opened HashMaps

  datatype ExternalName = ExternalName(cluster: string, name: string)

  datatype SinglePlacement = SinglePlacement(cluster: string, locationName: string, syncTargetName: string,
                                             syncTargetUID: string)

  datatype GroupResource = GroupResource(group: string, resource: string)

  /** A workload object; the namespace is empty exactly when the object is taken to be cluster-scoped. */
  datatype WorkloadPartID = WorkloadPartID(gr: GroupResource, namespace: string, name: string)

  datatype WorkloadPartDetails = WorkloadPartDetails(apiVersion: string, returnSingletonState: bool, createOnly: bool)

  datatype DistributionBits = DistributionBits(returnSingletonState: bool, createOnly: bool)

  datatype ProjectionModeKey = ProjectionModeKey(gr: GroupResource, destination: SinglePlacement)

  datatype UpsyncSet = UpsyncSet(apiGroup: string, resources: seq<string>, namespaces: seq<string>, names: seq<string>)

  type NamespacedName = (string, string)

  /**
   The namespaced and the cluster-scoped tables have the same shape; `Obj` is how an object is named
   within its resource: by namespace and name, or by name.
   */
  type WhatWhereFullKey<Obj> = (ExternalName, (GroupResource, Obj), SinglePlacement)
  type DistributionTuple<Obj> = (ProjectionModeKey, (string, Obj))

  /** Sets the name of the EdgePlacement apart from the rest. */
  function FactorWhatWhereFullKey<Obj>(): Factorer<WhatWhereFullKey<Obj>, DistributionTuple<Obj>, string> {
    Factorer(
      (k: WhatWhereFullKey<Obj>) => ((ProjectionModeKey(k.1.0, k.2), (k.0.cluster, k.1.1)), k.0.name),
      (t: DistributionTuple<Obj>, epName: string) =>
        (ExternalName(t.1.0, epName), (t.0.gr, t.1.1), t.0.destination))
  }

  /** Groups by destination, for writing the configuration of a syncer. */
  function FactorDistributionTupleForSync<Obj>()
    : Factorer<DistributionTuple<Obj>, SinglePlacement, ((GroupResource, Obj), string)> {
    Factorer(
      (t: DistributionTuple<Obj>) => (t.0.destination, ((t.0.gr, t.1.1), t.1.0)),
      (dest: SinglePlacement, rest: ((GroupResource, Obj), string)) =>
        (ProjectionModeKey(rest.0.0, dest), (rest.1, rest.0.1)))
  }

  /** Groups by source, for copying the objects of that source. */
  function FactorDistributionTupleForProj<Obj>()
    : Factorer<DistributionTuple<Obj>, string, (GroupResource, (Obj, SinglePlacement))> {
    Factorer(
      (t: DistributionTuple<Obj>) => (t.1.0, (t.0.gr, (t.1.1, t.0.destination))),
      (source: string, rest: (GroupResource, (Obj, SinglePlacement))) =>
        (ProjectionModeKey(rest.0, rest.1.1), (source, rest.1.0)))
  }

  function FactorProjectionModeKeyForSyncer(): Factorer<ProjectionModeKey, SinglePlacement, GroupResource> {
    Factorer((k: ProjectionModeKey) => (k.destination, k.gr),
             (dest: SinglePlacement, gr: GroupResource) => ProjectionModeKey(gr, dest))
  }

  function FactorProjectionModeKeyForProj(): Factorer<ProjectionModeKey, GroupResource, SinglePlacement> {
    Factorer((k: ProjectionModeKey) => (k.gr, k.destination),
             (gr: GroupResource, dest: SinglePlacement) => ProjectionModeKey(gr, dest))
  }

  function FactorUpsyncTuple()
    : Factorer<(ExternalName, UpsyncSet, SinglePlacement), (SinglePlacement, UpsyncSet), ExternalName> {
    Factorer(
      (t: (ExternalName, UpsyncSet, SinglePlacement)) => ((t.2, t.1), t.0),
      (p: (SinglePlacement, UpsyncSet), ep: ExternalName) => (ep, p.1, p.0))
  }

  /** No factorer loses or confuses anything. */
  lemma FactorersAreBijective<Obj(!new)>()
    ensures Bijective(FactorWhatWhereFullKey<Obj>())
    ensures Bijective(FactorDistributionTupleForSync<Obj>())
    ensures Bijective(FactorDistributionTupleForProj<Obj>())
    ensures Bijective(FactorProjectionModeKeyForSyncer())
    ensures Bijective(FactorProjectionModeKeyForProj())
    ensures Bijective(FactorUpsyncTuple())
  {
  }

  // ----- The hash domains of these values; the checksum of a string is any function. -----

  function HashDomainString(checksum: string -> HashValue): HashDomain<string> {
    HashDomain((l: string, r: string) => l == r, checksum)
  }

  function HashExternalName(checksum: string -> HashValue): HashDomain<ExternalName> {
    TransformHashDomain((e: ExternalName) => (e.cluster, e.name),
                        PairHashDomain(HashDomainString(checksum), HashDomainString(checksum)))
  }

  function HashUpsyncSet(checksum: string -> HashValue): HashDomain<UpsyncSet> {
    var strings := SliceHashDomain(HashDomainString(checksum));
    HashDomain(
      (l: UpsyncSet, r: UpsyncSet) =>
        l.apiGroup == r.apiGroup && strings.equal(l.resources, r.resources)
        && strings.equal(l.namespaces, r.namespaces) && strings.equal(l.names, r.names),
      (u: UpsyncSet) =>
        Wrap(checksum(u.apiGroup) + 5 * strings.hash(u.resources) + 37 * strings.hash(u.namespaces)
            + 257 * strings.hash(u.names)))
  }

  function HashSinglePlacement(checksum: string -> HashValue): HashDomain<SinglePlacement> {
    HashDomain(
      (l: SinglePlacement, r: SinglePlacement) =>
        l.cluster == r.cluster && l.locationName == r.locationName
        && l.syncTargetName == r.syncTargetName && l.syncTargetUID == r.syncTargetUID,
      (p: SinglePlacement) =>
        Wrap(checksum(p.cluster) + checksum(p.locationName) + checksum(p.syncTargetName) + checksum(p.syncTargetUID)))
  }

  /** Every domain in use compares by identity, so a hash map over it is an ordinary map. */
  lemma DomainsAreExact(checksum: string -> HashValue)
    ensures Exact(HashExternalName(checksum)) && Lawful(HashExternalName(checksum))
    ensures Exact(HashUpsyncSet(checksum)) && Lawful(HashUpsyncSet(checksum))
    ensures Exact(HashSinglePlacement(checksum)) && Lawful(HashSinglePlacement(checksum))
    ensures Exact(PairHashDomain(HashSinglePlacement(checksum), HashUpsyncSet(checksum)))
  {
    var str := HashDomainString(checksum);
    ExactIsLawful(str);
    PairsAreLawful(str, str);
    TransformsAreLawful((e: ExternalName) => (e.cluster, e.name), PairHashDomain(str, str));
    UpsyncSetsAreExact(checksum);
    ExactIsLawful(HashUpsyncSet(checksum));
    ExactIsLawful(HashSinglePlacement(checksum));
    PairsAreLawful(HashSinglePlacement(checksum), HashUpsyncSet(checksum));
  }

  lemma UpsyncSetsAreExact(checksum: string -> HashValue)
    ensures Exact(HashUpsyncSet(checksum))
  {
    var str := HashDomainString(checksum);
    ExactIsLawful(str);
    SlicesAreLawful(str);
    var strings, ups := SliceHashDomain(str), HashUpsyncSet(checksum);
    assert Exact(strings);
    forall l, r
      ensures ups.equal(l, r) <==> l == r
    {
      assert strings.equal(l.resources, r.resources) <==> l.resources == r.resources;
      assert strings.equal(l.namespaces, r.namespaces) <==> l.namespaces == r.namespaces;
      assert strings.equal(l.names, r.names) <==> l.names == r.names;
    }
  }

  /** Whatever is put and deleted, the hash map of the upsync table has the lookups of an ordinary map. */
  lemma UpsyncTableIsMap<V>(checksum: string -> HashValue, ops: seq<MapChange<(SinglePlacement, UpsyncSet), V>>,
                            k: (SinglePlacement, UpsyncSet))
    ensures var d := PairHashDomain(HashSinglePlacement(checksum), HashUpsyncSet(checksum));
            var m := AfterAll(map[], ops);
            Lookup(d, RunBuckets(d, ops), k) == if k in m then Some(m[k]) else None
  {
    DomainsAreExact(checksum);
    RunIsMap(PairHashDomain(HashSinglePlacement(checksum), HashUpsyncSet(checksum)), ops, k);
  }
}
