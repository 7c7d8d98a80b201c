/**
 The assembly of the placement translator's pipeline (pkg/placement/set-binder-assembly.go):
 the resolved "what" and "where" of each EdgePlacement are differenced, joined on the EdgePlacement,
 and handed to the organizer. After every transaction the tables answer the documented query.
 */
module SetBinder {
  import opened Changes
  import opened Joins
  import opened Differencers
  import opened PlacementTypes
  import opened PlacementHistory
  import opened BindingOrganizer

  type Tuples = map<DownsyncTuple, WorkloadPartDetails>
  type DownsyncOp = JoinOp<ExternalName, WorkloadPartID, SinglePlacement, WorkloadPartDetails>

  /** The namespaced table holds the tuples about namespaced objects of resources that go to the mailbox. */
  ghost predicate RoutedNamespaced(goes: Mailbox, j: Tuples,
                                   table: map<WhatWhereFullKey<NamespacedName>, WorkloadPartDetails>) {
    && (forall t: DownsyncTuple :: NamespacedKey(t) in table <==> t in j && goes(t.1.gr) && t.1.namespace != "")
    && (forall t: DownsyncTuple | NamespacedKey(t) in table :: table[NamespacedKey(t)] == j[t])
  }

  /** The cluster-scoped table holds the tuples about the other objects, except for those that it has lost. */
  ghost predicate RoutedClusterScoped(goes: Mailbox, j: Tuples,
                                      table: map<WhatWhereFullKey<string>, WorkloadPartDetails>,
                                      lost: set<ClusterScopedKey>)
  {
    && (forall t: DownsyncTuple | t.1.namespace == "" ::
          ClusterKey(t) in table <==> t in j && goes(t.1.gr) && ClusterKey(t) !in lost)
    && (forall t: DownsyncTuple | t.1.namespace == "" && ClusterKey(t) in table :: table[ClusterKey(t)] == j[t])
  }

  ghost predicate Routed(goes: Mailbox, j: Tuples, ns: map<WhatWhereFullKey<NamespacedName>, WorkloadPartDetails>,
                         ct: map<WhatWhereFullKey<string>, WorkloadPartDetails>, lost: set<ClusterScopedKey>)
  {
    RoutedNamespaced(goes, j, ns) && RoutedClusterScoped(goes, j, ct, lost)
  }

  // ----- What one change of the joined tuples does to the tables -----

  ghost function NamespacedAfter(goes: Mailbox, ns: map<WhatWhereFullKey<NamespacedName>, WorkloadPartDetails>,
                                 c: MapChange<DownsyncTuple, WorkloadPartDetails>)
    : map<WhatWhereFullKey<NamespacedName>, WorkloadPartDetails>
  {
    if !goes(c.key.1.gr) || c.key.1.namespace == "" then ns
    else if c.Put? then ns[NamespacedKey(c.key) := c.val] else ns - {NamespacedKey(c.key)}
  }

  /** A delete is not restricted to tuples without a namespace. */
  ghost function ClusterScopedAfter(goes: Mailbox, ct: map<WhatWhereFullKey<string>, WorkloadPartDetails>,
                                    c: MapChange<DownsyncTuple, WorkloadPartDetails>)
    : map<WhatWhereFullKey<string>, WorkloadPartDetails>
  {
    if !goes(c.key.1.gr) then ct
    else if c.Delete? then ct - {ClusterKey(c.key)}
    else if c.key.1.namespace == "" then ct[ClusterKey(c.key) := c.val] else ct
  }

  /** So a delete may take along an entry that is still wanted, until that entry is put again. */
  ghost function Lost(lost: set<ClusterScopedKey>,
                      c: MapChange<DownsyncTuple, WorkloadPartDetails>): set<ClusterScopedKey> {
    if c.Delete? then lost + {ClusterKey(c.key)}
    else if c.key.1.namespace == "" then lost - {ClusterKey(c.key)} else lost
  }

  ghost function LostAll(lost: set<ClusterScopedKey>,
                         cs: seq<MapChange<DownsyncTuple, WorkloadPartDetails>>): set<ClusterScopedKey> {
    if cs == [] then lost else Lost(LostAll(lost, cs[..|cs| - 1]), cs[|cs| - 1])
  }

  lemma LostNone(lost: set<ClusterScopedKey>)
    ensures LostAll(lost, []) == lost
  {
  }

  lemma LostAllSnoc(lost: set<ClusterScopedKey>, cs: seq<MapChange<DownsyncTuple, WorkloadPartDetails>>,
                    c: MapChange<DownsyncTuple, WorkloadPartDetails>)
    ensures LostAll(lost, cs + [c]) == Lost(LostAll(lost, cs), c)
  {
    assert (cs + [c])[..|cs|] == cs;
  }

  lemma {:induction false} LostByPuts(lost: set<ClusterScopedKey>,
                                      cs: seq<MapChange<DownsyncTuple, WorkloadPartDetails>>)
    requires forall c | c in cs :: c.Put?
    ensures forall k :: k in LostAll(lost, cs) <==>
              k in lost && !exists c :: c in cs && c.key.1.namespace == "" && ClusterKey(c.key) == k
  {
    if cs != [] {
      var init, last := cs[..|cs| - 1], cs[|cs| - 1];
      assert cs == init + [last];
      assert last in cs && forall c :: c in cs <==> c in init || c == last;
      LostByPuts(lost, init);
    }
  }

  lemma {:induction false} LostByDeletes(lost: set<ClusterScopedKey>,
                                         cs: seq<MapChange<DownsyncTuple, WorkloadPartDetails>>)
    requires forall c | c in cs :: c.Delete?
    ensures forall k :: k in LostAll(lost, cs) <==> k in lost || exists c :: c in cs && ClusterKey(c.key) == k
  {
    if cs != [] {
      var init, last := cs[..|cs| - 1], cs[|cs| - 1];
      assert cs == init + [last];
      assert last in cs && forall c :: c in cs <==> c in init || c == last;
      LostByDeletes(lost, init);
    }
  }

  /** Nothing that is wanted is lost. */
  ghost predicate NothingMissing(goes: Mailbox, j: Tuples, lost: set<ClusterScopedKey>) {
    forall t: DownsyncTuple | t in j && t.1.namespace == "" && goes(t.1.gr) :: ClusterKey(t) !in lost
  }

  lemma StepRouted(goes: Mailbox, j: Tuples, ns: map<WhatWhereFullKey<NamespacedName>, WorkloadPartDetails>,
                   ct: map<WhatWhereFullKey<string>, WorkloadPartDetails>, lost: set<ClusterScopedKey>,
                   c: MapChange<DownsyncTuple, WorkloadPartDetails>)
    requires Routed(goes, j, ns, ct, lost)
    ensures Routed(goes, After(j, c), NamespacedAfter(goes, ns, c), ClusterScopedAfter(goes, ct, c), Lost(lost, c))
  {
    StepRoutedNamespaced(goes, j, ns, c);
    StepRoutedClusterScoped(goes, j, ct, lost, c);
  }

  lemma StepRoutedNamespaced(goes: Mailbox, j: Tuples, ns: map<WhatWhereFullKey<NamespacedName>, WorkloadPartDetails>,
                             c: MapChange<DownsyncTuple, WorkloadPartDetails>)
    requires RoutedNamespaced(goes, j, ns)
    ensures RoutedNamespaced(goes, After(j, c), NamespacedAfter(goes, ns, c))
  {
    assert forall t: DownsyncTuple | NamespacedKey(t) == NamespacedKey(c.key) :: t == c.key;
  }

  lemma StepRoutedClusterScoped(goes: Mailbox, j: Tuples, ct: map<WhatWhereFullKey<string>, WorkloadPartDetails>,
                                lost: set<ClusterScopedKey>, c: MapChange<DownsyncTuple, WorkloadPartDetails>)
    requires RoutedClusterScoped(goes, j, ct, lost)
    ensures RoutedClusterScoped(goes, After(j, c), ClusterScopedAfter(goes, ct, c), Lost(lost, c))
  {
    assert forall t: DownsyncTuple | ClusterKey(t) == ClusterKey(c.key) && t.1.namespace == c.key.1.namespace ::
             t == c.key;
  }

  // ----- The inputs of the joins are what the placements call for -----

  ghost predicate DownsyncInput(pc: PerCluster, left: map<(ExternalName, WorkloadPartID), WorkloadPartDetails>) {
    && (forall ep, part :: (ep, part) in left <==> part in At(pc, ep).downsync)
    && (forall ep, part | (ep, part) in left :: left[(ep, part)] == At(pc, ep).downsync[part])
  }

  ghost predicate UpsyncInput(pc: PerCluster, left: set<(ExternalName, UpsyncSet)>) {
    forall ep, u :: (ep, u) in left <==> u in At(pc, ep).upsync
  }

  ghost predicate WhereInput(pc: PerCluster, right: set<(ExternalName, SinglePlacement)>) {
    forall ep, sp :: (ep, sp) in right <==> sp in At(pc, ep).where
  }

  // ----- The part of the left input that is about one EdgePlacement -----

  type DownsyncLeft = map<(ExternalName, WorkloadPartID), WorkloadPartDetails>

  ghost predicate SliceIs(left: DownsyncLeft, ep: ExternalName, m: map<WorkloadPartID, WorkloadPartDetails>) {
    && (forall part :: (ep, part) in left <==> part in m)
    && (forall part | part in m :: left[(ep, part)] == m[part])
  }

  ghost predicate SameElsewhere(left: DownsyncLeft, left': DownsyncLeft, ep: ExternalName) {
    && (forall e, part | e != ep :: (e, part) in left <==> (e, part) in left')
    && (forall e, part | e != ep && (e, part) in left :: left'[(e, part)] == left[(e, part)])
  }

  lemma SameAsItself(left: DownsyncLeft, ep: ExternalName)
    ensures SameElsewhere(left, left, ep)
  {
  }

  ghost function OpFor(ep: ExternalName, c: MapChange<WorkloadPartID, WorkloadPartDetails>): DownsyncOp {
    match c
    case Put(part, d) => JoinOp.PutLeft(ep, part, d)
    case Delete(part) => JoinOp.DeleteLeft(ep, part)
  }

  lemma SliceStep(left0: DownsyncLeft, left: DownsyncLeft, ep: ExternalName,
                  m: map<WorkloadPartID, WorkloadPartDetails>, c: MapChange<WorkloadPartID, WorkloadPartDetails>)
    requires SliceIs(left, ep, m) && SameElsewhere(left0, left, ep)
    ensures SliceIs(LeftAfter(left, OpFor(ep, c)), ep, After(m, c))
            && SameElsewhere(left0, LeftAfter(left, OpFor(ep, c)), ep)
  {
  }

  lemma SliceOfInput(pc: PerCluster, left: DownsyncLeft, ep: ExternalName)
    requires DownsyncInput(pc, left)
    ensures SliceIs(left, ep, At(pc, ep).downsync) && SameElsewhere(left, left, ep)
  {
  }

  lemma SameElsewhereTwice(left: DownsyncLeft, left': DownsyncLeft, left'': DownsyncLeft, ep: ExternalName)
    requires SameElsewhere(left, left', ep) && SameElsewhere(left', left'', ep)
    ensures SameElsewhere(left, left'', ep)
  {
  }

  /** Replacing a part of one placement does not concern the inputs for its other parts. */
  lemma SameWhere(pc: PerCluster, ep: ExternalName, p: Placement, right: set<(ExternalName, SinglePlacement)>)
    requires WhereInput(pc, right) && p.where == At(pc, ep).where
    ensures WhereInput(Set(pc, ep, p), right)
  {
    SetAt(pc, ep, p);
  }

  lemma SameUpsync(pc: PerCluster, ep: ExternalName, p: Placement, left: set<(ExternalName, UpsyncSet)>)
    requires UpsyncInput(pc, left) && p.upsync == At(pc, ep).upsync
    ensures UpsyncInput(Set(pc, ep, p), left)
  {
    SetAt(pc, ep, p);
  }

  lemma SameDownsync(pc: PerCluster, ep: ExternalName, p: Placement, left: DownsyncLeft)
    requires DownsyncInput(pc, left) && p.downsync == At(pc, ep).downsync
    ensures DownsyncInput(Set(pc, ep, p), left)
  {
    SetAt(pc, ep, p);
  }

  lemma WhereOf(pc: PerCluster, ep: ExternalName, right: set<(ExternalName, SinglePlacement)>)
    requires WhereInput(pc, right)
    ensures forall sp :: (ep, sp) in right <==> sp in At(pc, ep).where
  {
  }

  lemma GonersRemain(current: map<WorkloadPartID, WorkloadPartDetails>,
                     puts: seq<MapChange<WorkloadPartID, WorkloadPartDetails>>,
                     target: map<WorkloadPartID, WorkloadPartDetails>)
    requires forall c :: c in puts <==> c.Put? && c.key in target && c.val == target[c.key]
    ensures forall part | part in current :: part in AfterAll(current, puts)
  {
    AllPuts(current, puts);
  }

  lemma InputFromSlice(pc: PerCluster, left: DownsyncLeft, left': DownsyncLeft, ep: ExternalName, p: Placement)
    requires DownsyncInput(pc, left) && SameElsewhere(left, left', ep) && SliceIs(left', ep, p.downsync)
    ensures DownsyncInput(Set(pc, ep, p), left')
  {
    SetAt(pc, ep, p);
  }

  // ----- The part of a relation that is about one EdgePlacement -----

  ghost predicate RelatedTo<A(!new), B(!new)>(r: set<(A, B)>, a: A, s: set<B>) {
    forall b :: (a, b) in r <==> b in s
  }

  ghost predicate UnrelatedSame<A(!new), B(!new)>(r: set<(A, B)>, r': set<(A, B)>, a: A) {
    forall a', b | a' != a :: (a', b) in r <==> (a', b) in r'
  }

  ghost function RelationAfter<A, B>(r: set<(A, B)>, add: bool, a: A, b: B): set<(A, B)> {
    if add then r + {(a, b)} else r - {(a, b)}
  }

  lemma UnrelatedItself<A(!new), B(!new)>(r: set<(A, B)>, a: A)
    ensures UnrelatedSame(r, r, a)
  {
  }

  lemma UnrelatedTwice<A(!new), B(!new)>(r: set<(A, B)>, r': set<(A, B)>, r'': set<(A, B)>, a: A)
    requires UnrelatedSame(r, r', a) && UnrelatedSame(r', r'', a)
    ensures UnrelatedSame(r, r'', a)
  {
  }

  lemma RelationStep<A(!new), B(!new)>(r0: set<(A, B)>, r: set<(A, B)>, a: A, s: set<B>, c: SetChange<B>)
    requires RelatedTo(r, a, s) && UnrelatedSame(r0, r, a)
    ensures RelatedTo(RelationAfter(r, c.Add?, a, c.elt), a, Changed(s, c))
    ensures UnrelatedSame(r0, RelationAfter(r, c.Add?, a, c.elt), a)
  {
  }

  lemma UpsyncRelated(pc: PerCluster, ep: ExternalName, left: set<(ExternalName, UpsyncSet)>)
    requires UpsyncInput(pc, left)
    ensures RelatedTo(left, ep, Elements(At(pc, ep).upsync))
  {
  }

  lemma UpsyncFromRelated(pc: PerCluster, ep: ExternalName, p: Placement, left: set<(ExternalName, UpsyncSet)>,
                          left': set<(ExternalName, UpsyncSet)>)
    requires UpsyncInput(pc, left) && UnrelatedSame(left, left', ep) && RelatedTo(left', ep, Elements(p.upsync))
    ensures UpsyncInput(Set(pc, ep, p), left')
  {
    SetAt(pc, ep, p);
  }

  lemma WhereRelated(pc: PerCluster, ep: ExternalName, right: set<(ExternalName, SinglePlacement)>)
    requires WhereInput(pc, right)
    ensures RelatedTo(right, ep, At(pc, ep).where)
  {
  }

  lemma WhereFromRelated(pc: PerCluster, ep: ExternalName, p: Placement, right: set<(ExternalName, SinglePlacement)>,
                         right': set<(ExternalName, SinglePlacement)>)
    requires WhereInput(pc, right) && UnrelatedSame(right, right', ep) && RelatedTo(right', ep, p.where)
    ensures WhereInput(Set(pc, ep, p), right')
  {
    SetAt(pc, ep, p);
  }

  // ----- What the changes of one EdgePlacement do to the entries that the cluster-scoped table has lost -----

  /** The keys that deleting these parts of one EdgePlacement takes out of the cluster-scoped table. */
  ghost predicate Dropped(ep: ExternalName, cs: seq<MapChange<WorkloadPartID, WorkloadPartDetails>>,
                          right: set<(ExternalName, SinglePlacement)>, k: ClusterScopedKey)
  {
    k.0 == ep && (ep, k.2) in right && exists c :: c in cs && (c.key.gr, c.key.name) == k.1
  }

  lemma NoneDropped(ep: ExternalName, right: set<(ExternalName, SinglePlacement)>)
    ensures forall k :: !Dropped(ep, [], right, k)
  {
  }

  /** A part whose turn to be deleted has not come is still in the input. */
  lemma StillThere(left: DownsyncLeft, ep: ExternalName, m: map<WorkloadPartID, WorkloadPartDetails>,
                   goners: seq<MapChange<WorkloadPartID, WorkloadPartDetails>>, i: nat)
    requires i < |goners| && Distinct(goners) && forall c | c in goners :: c.Delete? && c.key in m
    requires SliceIs(left, ep, AfterAll(m, goners[..i]))
    ensures (ep, goners[i].key) in left
  {
    AllDeletes(m, goners[..i]);
    PrefixElements(goners, i);
    assert goners[i] in goners && goners[i] == MapChange.Delete(goners[i].key);
  }

  lemma DropStep(left: DownsyncLeft, right: set<(ExternalName, SinglePlacement)>, ep: ExternalName,
                 cs: seq<MapChange<WorkloadPartID, WorkloadPartDetails>>,
                 c: MapChange<WorkloadPartID, WorkloadPartDetails>, lost: set<ClusterScopedKey>,
                 lost1: set<ClusterScopedKey>, out: seq<MapChange<DownsyncTuple, WorkloadPartDetails>>)
    requires c.Delete? && (ep, c.key) in left && Emits(left, right, OpFor(ep, c), out)
    requires forall k :: k in lost <==> k in lost1 || Dropped(ep, cs, right, k)
    ensures forall k :: k in LostAll(lost, out) <==> k in lost1 || Dropped(ep, cs + [c], right, k)
  {
    LostByDeletes(lost, out);
    assert forall d :: d in cs + [c] <==> d in cs || d == c;
    forall k
      ensures k in LostAll(lost, out) <==> k in lost1 || Dropped(ep, cs + [c], right, k)
    {
      if k.0 == ep && (ep, k.2) in right && (c.key.gr, c.key.name) == k.1 {
        var d := MapChange<DownsyncTuple, WorkloadPartDetails>.Delete((ep, c.key, k.2));
        assert d in out && ClusterKey(d.key) == k;
      }
    }
  }

  /** The keys that putting these parts of one EdgePlacement puts back into the cluster-scoped table. */
  ghost predicate Restored(ep: ExternalName, cs: seq<MapChange<WorkloadPartID, WorkloadPartDetails>>,
                           right: set<(ExternalName, SinglePlacement)>, k: ClusterScopedKey)
  {
    k.0 == ep && (ep, k.2) in right && exists c :: c in cs && c.key == Bare(k)
  }

  lemma NoneRestored(ep: ExternalName, right: set<(ExternalName, SinglePlacement)>)
    ensures forall k :: !Restored(ep, [], right, k)
  {
  }

  lemma RestoreStep(left: DownsyncLeft, right: set<(ExternalName, SinglePlacement)>, ep: ExternalName,
                    cs: seq<MapChange<WorkloadPartID, WorkloadPartDetails>>,
                    c: MapChange<WorkloadPartID, WorkloadPartDetails>, lost: set<ClusterScopedKey>,
                    lost1: set<ClusterScopedKey>, out: seq<MapChange<DownsyncTuple, WorkloadPartDetails>>)
    requires c.Put? && Emits(left, right, OpFor(ep, c), out)
    requires forall k :: k in lost <==> k in lost1 && !Restored(ep, cs, right, k)
    ensures forall k :: k in LostAll(lost, out) <==> k in lost1 && !Restored(ep, cs + [c], right, k)
  {
    LostByPuts(lost, out);
    assert forall d :: d in cs + [c] <==> d in cs || d == c;
    forall k
      ensures k in LostAll(lost, out) <==> k in lost1 && !Restored(ep, cs + [c], right, k)
    {
      if k.0 == ep && (ep, k.2) in right && c.key == Bare(k) {
        var d := MapChange<DownsyncTuple, WorkloadPartDetails>.Put((ep, c.key, k.2), c.val);
        assert d in out && ClusterKey(d.key) == k;
      }
    }
  }

  lemma AddedRestores(left: DownsyncLeft, right: set<(ExternalName, SinglePlacement)>, ep: ExternalName,
                      sp: SinglePlacement, lost: set<ClusterScopedKey>,
                      out: seq<MapChange<DownsyncTuple, WorkloadPartDetails>>)
    requires Emits(left, right, JoinOp.AddRight(ep, sp), out)
    ensures forall k :: k in LostAll(lost, out) <==>
              k in lost && !(k.0 == ep && k.2 == sp && (ep, sp) !in right && (ep, Bare(k)) in left)
  {
    LostByPuts(lost, out);
    forall k
      ensures k in LostAll(lost, out) <==>
                k in lost && !(k.0 == ep && k.2 == sp && (ep, sp) !in right && (ep, Bare(k)) in left)
    {
      if k.0 == ep && k.2 == sp && (ep, sp) !in right && (ep, Bare(k)) in left {
        var d := MapChange<DownsyncTuple, WorkloadPartDetails>.Put((ep, Bare(k), sp), left[(ep, Bare(k))]);
        assert d in out && ClusterKey(d.key) == k;
      }
    }
  }

  lemma RemovedElsewhere(left: DownsyncLeft, right: set<(ExternalName, SinglePlacement)>, ep: ExternalName,
                         sp: SinglePlacement, lost: set<ClusterScopedKey>,
                         out: seq<MapChange<DownsyncTuple, WorkloadPartDetails>>)
    requires Emits(left, right, JoinOp.RemoveRight(ep, sp), out)
    ensures forall k: ClusterScopedKey | !(k.0 == ep && k.2 == sp) :: k in LostAll(lost, out) <==> k in lost
  {
    LostByDeletes(lost, out);
  }

  /** All that is put is put back, and then what the deletes take along is lost. */
  lemma WhatLoses(goes: Mailbox, pc: PerCluster, right: set<(ExternalName, SinglePlacement)>, ep: ExternalName,
                  target: map<WorkloadPartID, WorkloadPartDetails>,
                  puts: seq<MapChange<WorkloadPartID, WorkloadPartDetails>>,
                  goners: seq<MapChange<WorkloadPartID, WorkloadPartDetails>>, lost0: set<ClusterScopedKey>,
                  lost1: set<ClusterScopedKey>, lost: set<ClusterScopedKey>, upsync: seq<UpsyncSet>)
    requires forall sp :: (ep, sp) in right <==> sp in At(pc, ep).where
    requires forall c :: c in puts <==> c.Put? && c.key in target && c.val == target[c.key]
    requires forall c :: c in goners <==> c.Delete? && c.key in At(pc, ep).downsync && c.key !in target
    requires forall k :: k in lost1 <==> k in lost0 && !Restored(ep, puts, right, k)
    requires forall k :: k in lost <==> k in lost1 || Dropped(ep, goners, right, k)
    ensures LostAsSaid(goes, pc, lost0, Event.WhatPut(ep, target, upsync), lost)
  {
    var e := Event.WhatPut(ep, target, upsync);
    hide At, Next;
    AtNext(pc, e);
    forall k: ClusterScopedKey | Wants(goes, Next(pc, e), k)
      ensures k in lost <==> Loses(pc, k in lost0, e, k)
    {
      if k.0 == ep {
        var c := MapChange.Put(Bare(k), target[Bare(k)]);
        assert c in puts;
        assert Restored(ep, puts, right, k);
        DroppedTwins(At(pc, ep).downsync, target, goners, ep, right, k);
      }
    }
  }

  lemma DroppedTwins(before: map<WorkloadPartID, WorkloadPartDetails>, after: map<WorkloadPartID, WorkloadPartDetails>,
                     goners: seq<MapChange<WorkloadPartID, WorkloadPartDetails>>, ep: ExternalName,
                     right: set<(ExternalName, SinglePlacement)>, k: ClusterScopedKey)
    requires forall c :: c in goners <==> c.Delete? && c.key in before && c.key !in after
    requires k.0 == ep && (ep, k.2) in right && Bare(k) in after
    ensures Dropped(ep, goners, right, k) <==> DropsTwin(before, after, k)
  {
    if Dropped(ep, goners, right, k) {
      var c :| c in goners && (c.key.gr, c.key.name) == k.1;
      assert c.key == WorkloadPartID(k.1.0, c.key.namespace, k.1.1);
    }
    if ns :| ns != "" && WorkloadPartID(k.1.0, ns, k.1.1) in before && WorkloadPartID(k.1.0, ns, k.1.1) !in after {
      assert MapChange<WorkloadPartID, WorkloadPartDetails>.Delete(WorkloadPartID(k.1.0, ns, k.1.1)) in goners;
    }
  }

  /** A destination that comes brings everything back; one that stays changes nothing. */
  lemma WhereLoses(goes: Mailbox, pc: PerCluster, left: DownsyncLeft, ep: ExternalName,
                   target: seq<seq<SinglePlacement>>, adds: seq<SinglePlacement>, removes: seq<SinglePlacement>,
                   lost0: set<ClusterScopedKey>, lost1: set<ClusterScopedKey>, lost: set<ClusterScopedKey>)
    requires DownsyncInput(pc, left)
    requires Elements(adds) == Destinations(target) - At(pc, ep).where
             && Elements(removes) == At(pc, ep).where - Destinations(target)
    requires WhereAdded(left, ep, adds, lost0, lost1)
    requires forall k: ClusterScopedKey | !(k.0 == ep && k.2 in removes) :: k in lost <==> k in lost1
    ensures LostAsSaid(goes, pc, lost0, Event.WherePut(ep, target), lost)
  {
    var e := Event.WherePut(ep, target);
    hide At, Next, Destinations;
    AtNext(pc, e);
    forall k: ClusterScopedKey | Wants(goes, Next(pc, e), k)
      ensures k in lost <==> Loses(pc, k in lost0, e, k)
    {
      assert k.2 in adds <==> k.2 in Elements(adds);
      assert k.2 in removes <==> k.2 in Elements(removes);
      if k.0 == ep {
        assert (ep, Bare(k)) in left;
      }
    }
  }

  /** After these destinations were added, their keys are in place and the others are as they were. */
  ghost predicate WhereAdded(left: DownsyncLeft, ep: ExternalName, adds: seq<SinglePlacement>,
                             lost: set<ClusterScopedKey>, lost': set<ClusterScopedKey>)
  {
    && (forall k: ClusterScopedKey | !(k.0 == ep && k.2 in adds) :: k in lost' <==> k in lost)
    && (forall k: ClusterScopedKey | k.0 == ep && k.2 in adds && (ep, Bare(k)) in left :: k !in lost')
  }

  lemma NoneAdded(left: DownsyncLeft, ep: ExternalName, lost: set<ClusterScopedKey>)
    ensures WhereAdded(left, ep, [], lost, lost)
  {
  }

  lemma NotRelated<A(!new), B(!new)>(r: set<(A, B)>, a: A, s: set<B>, b: B)
    requires RelatedTo(r, a, s)
    ensures (a, b) in r <==> b in s
  {
  }

  lemma OneMoreAdded(left: DownsyncLeft, ep: ExternalName, sps: seq<SinglePlacement>, i: nat, add: bool,
                     lost0: set<ClusterScopedKey>, lost: set<ClusterScopedKey>, lost': set<ClusterScopedKey>)
    requires i < |sps|
    requires add ==> WhereAdded(left, ep, sps[..i], lost0, lost)
    requires forall k: ClusterScopedKey | !(k.0 == ep && k.2 == sps[i]) :: k in lost' <==> k in lost
    requires add ==> forall k: ClusterScopedKey | k.0 == ep && k.2 == sps[i] && (ep, Bare(k)) in left :: k !in lost'
    requires forall k: ClusterScopedKey | !(k.0 == ep && k.2 in sps[..i]) :: k in lost <==> k in lost0
    ensures add ==> WhereAdded(left, ep, sps[..i + 1], lost0, lost')
    ensures forall k: ClusterScopedKey | !(k.0 == ep && k.2 in sps[..i + 1]) :: k in lost' <==> k in lost0
  {
    assert forall x :: x in sps[..i + 1] <==> x in sps[..i] || x == sps[i];
  }

  /** In terms of the joined tuples: nothing wanted is lost. */
  lemma WantedTuples(goes: Mailbox, pc: PerCluster, left: DownsyncLeft, right: set<(ExternalName, SinglePlacement)>,
                     j: Tuples, lost: set<ClusterScopedKey>)
    requires DownsyncInput(pc, left) && WhereInput(pc, right) && IsJoin(left, right, j)
    ensures NothingMissing(goes, j, lost) <==> NoneLost(goes, pc, lost)
  {
    forall k: ClusterScopedKey
      ensures Wants(goes, pc, k) <==> (k.0, Bare(k), k.2) in j && goes(k.1.0)
      ensures ClusterKey((k.0, Bare(k), k.2)) == k
    {
      assert (k.0, Bare(k)) in left <==> Bare(k) in At(pc, k.0).downsync;
      assert k == (k.0, (k.1.0, k.1.1), k.2);
    }
    hide Wants, At;
    if NoneLost(goes, pc, lost) {
      forall t: DownsyncTuple | t in j && t.1.namespace == "" && goes(t.1.gr)
        ensures ClusterKey(t) !in lost
      {
        var k := ClusterKey(t);
        assert (k.0, Bare(k), k.2) == t;
      }
    }
  }

  lemma NothingYet(goes: Mailbox)
    ensures Routed(goes, map[], map[], map[], {})
    ensures DownsyncInput(map[], map[]) && UpsyncInput(map[], {}) && WhereInput(map[], {})
  {
  }

  class SetBinder {
    const downsyncJoin: DynamicJoin12VWith13<ExternalName, WorkloadPartID, SinglePlacement, WorkloadPartDetails>
    const upsyncJoin: DynamicFullJoin12with13<ExternalName, UpsyncSet, SinglePlacement>
    const organizer: Organizer
    var perCluster: PerCluster
    /** Keys of cluster-scoped entries that a delete of a namespaced tuple has taken along. */
    ghost var lost: set<ClusterScopedKey>

    /** The objects that make up the pipeline. */
    ghost const stages: set<object>

    ghost function Left(): DownsyncLeft
      reads downsyncJoin.xyv
    {
      downsyncJoin.xyv.contents
    }

    ghost function Right(): set<(ExternalName, SinglePlacement)>
      reads downsyncJoin.xz
    {
      downsyncJoin.xz.contents
    }

    ghost function UpsyncLeft(): set<(ExternalName, UpsyncSet)>
      reads upsyncJoin.xy
    {
      upsyncJoin.xy.contents
    }

    ghost function UpsyncRight(): set<(ExternalName, SinglePlacement)>
      reads upsyncJoin.xz
    {
      upsyncJoin.xz.contents
    }

    ghost function Joined(): Tuples
      reads downsyncJoin
    {
      downsyncJoin.joined
    }

    /** What the downsync part of the pipeline may change. */
    ghost function Downsync(): set<object> {
      {downsyncJoin, downsyncJoin.xyv, downsyncJoin.xz, organizer} + organizer.namespaced.Repr
          + organizer.clusterScoped.Repr
    }

    ghost predicate Wired()
      reads `lost, stages
    {
      && stages == {downsyncJoin, downsyncJoin.xyv, downsyncJoin.xz, upsyncJoin, upsyncJoin.xy, upsyncJoin.xz}
         + organizer.Repr()
      && this !in organizer.Repr()
      && downsyncJoin !in organizer.Repr() && downsyncJoin.xyv !in organizer.Repr()
      && downsyncJoin.xz !in organizer.Repr()
      && upsyncJoin !in organizer.Repr() && upsyncJoin.xy !in organizer.Repr() && upsyncJoin.xz !in organizer.Repr()
      && downsyncJoin.xz as object != upsyncJoin.xy && downsyncJoin.xz != upsyncJoin.xz
      && downsyncJoin.Valid() && upsyncJoin.Valid() && organizer.Valid()
      && Routed(organizer.goesToMailbox, downsyncJoin.joined, organizer.namespaced.whatWhereFull.contents,
                organizer.clusterScoped.whatWhereFull.contents, lost)
      && organizer.upsyncsFull.contents == upsyncJoin.joined
    }

    ghost predicate Valid()
      reads this, stages
    {
      && Wired()
      && DownsyncInput(perCluster, Left()) && WhereInput(perCluster, Right())
      && UpsyncInput(perCluster, UpsyncLeft()) && WhereInput(perCluster, UpsyncRight())
    }


    constructor (organizer: Organizer, ghost owned: set<object>)
      requires owned == organizer.Repr()
      requires organizer.Valid() && organizer.upsyncsFull.contents == {}
      requires organizer.namespaced.whatWhereFull.contents == map[]
               && organizer.clusterScoped.whatWhereFull.contents == map[]
      ensures Valid() && fresh(stages - organizer.Repr()) && this.organizer == organizer
      ensures perCluster == map[] && lost == {}
    {
      hide DynamicJoin12VWith13.Valid, DynamicFullJoin12with13.Valid, Organizer.Valid, Organizer.Repr, Routed,
           DownsyncInput, UpsyncInput, WhereInput;
      NothingYet(organizer.goesToMailbox);
      this.organizer := organizer;
      var down := new DynamicJoin12VWith13();
      var up := new DynamicFullJoin12with13();
      downsyncJoin, upsyncJoin := down, up;
      stages := {down, down.xyv, down.xz, up, up.xy, up.xz} + owned;
      perCluster, lost := map[], {};
    }

    /** Hands the changes of the join to the organizer. */
    method Feed(out: seq<MapChange<DownsyncTuple, WorkloadPartDetails>>, ghost j: Tuples)
      requires this !in organizer.Repr() && organizer.Valid()
      requires Routed(organizer.goesToMailbox, j, organizer.namespaced.whatWhereFull.contents,
                      organizer.clusterScoped.whatWhereFull.contents, lost)
      modifies `lost, organizer, organizer.namespaced.Repr, organizer.clusterScoped.Repr
      ensures organizer.Valid() && organizer.upsyncsFull.contents == old(organizer.upsyncsFull.contents)
      ensures Routed(organizer.goesToMailbox, AfterAll(j, out), organizer.namespaced.whatWhereFull.contents,
                     organizer.clusterScoped.whatWhereFull.contents, lost)
      ensures lost == LostAll(old(lost), out)
    {
      hide Organizer.Valid, Routed, AfterAll, LostAll, Lost;
      AfterNone(j);
      LostNone(lost);
      for i := 0 to |out|
        invariant organizer.Valid() && organizer.upsyncsFull.contents == old(organizer.upsyncsFull.contents)
        invariant Routed(organizer.goesToMailbox, AfterAll(j, out[..i]), organizer.namespaced.whatWhereFull.contents,
                         organizer.clusterScoped.whatWhereFull.contents, lost)
        invariant lost == LostAll(old(lost), out[..i])
      {
        var c := out[i];
        assert out[..i + 1] == out[..i] + [c];
        AfterAllSnoc(j, out[..i], c);
        LostAllSnoc(old(lost), out[..i], c);
        StepRouted(organizer.goesToMailbox, AfterAll(j, out[..i]), organizer.namespaced.whatWhereFull.contents,
                   organizer.clusterScoped.whatWhereFull.contents, lost, c);
        Feed1(c);
        lost := Lost(lost, c);
      }
      assert out[..|out|] == out;
    }

    method Feed1(c: MapChange<DownsyncTuple, WorkloadPartDetails>)
      requires organizer.Valid()
      modifies organizer, organizer.namespaced.Repr, organizer.clusterScoped.Repr
      ensures organizer.Valid() && organizer.upsyncsFull.contents == old(organizer.upsyncsFull.contents)
      ensures organizer.namespaced.whatWhereFull.contents
              == NamespacedAfter(organizer.goesToMailbox, old(organizer.namespaced.whatWhereFull.contents), c)
      ensures organizer.clusterScoped.whatWhereFull.contents
              == ClusterScopedAfter(organizer.goesToMailbox, old(organizer.clusterScoped.whatWhereFull.contents), c)
    {
      hide Organizer.Valid;
      match c {
        case Put(t, v) => organizer.Put(t, v);
        case Delete(t) => organizer.Delete(t);
      }
    }

    /** Every table is what it should be: the cluster-scoped table misses nothing. */
    ghost predicate Correct()
      reads `lost, downsyncJoin
    {
      NothingMissing(organizer.goesToMailbox, Joined(), lost)
    }

    /** Passes one change of an input through the join to the organizer. */
    method Change(op: DownsyncOp) returns (ghost out: seq<MapChange<DownsyncTuple, WorkloadPartDetails>>)
      requires Wired()
      modifies `lost, Downsync()
      ensures Wired()
      ensures Left() == LeftAfter(old(Left()), op)
      ensures Right() == RightAfter(old(Right()), op)
      ensures Emits(old(Left()), old(Right()), op, out)
      ensures Joined() == AfterAll(old(Joined()), out)
      ensures lost == LostAll(old(lost), out)
    {
      hide DynamicJoin12VWith13.Valid, DynamicFullJoin12with13.Valid, Organizer.Valid, Routed, LostAll, AfterAll, Emits,
           LeftAfter, RightAfter;
      var changes := downsyncJoin.Apply(op);
      Feed(changes, old(Joined()));
      out := changes;
    }

    method PutParts(ep: ExternalName, puts: seq<MapChange<WorkloadPartID, WorkloadPartDetails>>,
                    ghost m: map<WorkloadPartID, WorkloadPartDetails>)
      requires Wired() && SliceIs(Left(), ep, m)
      requires forall c | c in puts :: c.Put?
      modifies `lost, Downsync()
      ensures Wired()
      ensures SliceIs(Left(), ep, AfterAll(m, puts))
      ensures SameElsewhere(old(Left()), Left(), ep)
      ensures Right() == old(Right())
      ensures forall k :: k in lost <==> k in old(lost) && !Restored(ep, puts, Right(), k)
    {
      hide Wired, SliceIs, SameElsewhere, AfterAll, LeftAfter, Left, Right, Downsync, Emits, LostAll, Restored;
      SameAsItself(Left(), ep);
      AfterNone(m);
      NoneRestored(ep, Right());
      for i := 0 to |puts|
        invariant Wired()
        invariant SliceIs(Left(), ep, AfterAll(m, puts[..i]))
        invariant SameElsewhere(old(Left()), Left(), ep)
        invariant Right() == old(Right())
        invariant forall k :: k in lost <==> k in old(lost) && !Restored(ep, puts[..i], old(Right()), k)
      {
        var c := puts[i];
        assert puts[..i + 1] == puts[..i] + [c];
        AfterAllSnoc(m, puts[..i], c);
        SliceStep(old(Left()), Left(), ep, AfterAll(m, puts[..i]), c);
        ghost var left, was := Left(), lost;
        ghost var out := Change(JoinOp.PutLeft(ep, c.key, c.val));
        RestoreStep(left, old(Right()), ep, puts[..i], c, was, old(lost), out);
      }
      assert puts[..|puts|] == puts;
    }

    method DropParts(ep: ExternalName, goners: seq<MapChange<WorkloadPartID, WorkloadPartDetails>>,
                     ghost m: map<WorkloadPartID, WorkloadPartDetails>)
      requires Wired() && SliceIs(Left(), ep, m)
      requires Distinct(goners) && forall c | c in goners :: c.Delete? && c.key in m
      modifies `lost, Downsync()
      ensures Wired()
      ensures SliceIs(Left(), ep, AfterAll(m, goners)) && SameElsewhere(old(Left()), Left(), ep)
      ensures Right() == old(Right())
      ensures forall k :: k in lost <==> k in old(lost) || Dropped(ep, goners, Right(), k)
    {
      hide Wired, SliceIs, SameElsewhere, AfterAll, LeftAfter, Left, Right, Joined, Downsync, Emits, LostAll, Dropped;
      SameAsItself(Left(), ep);
      AfterNone(m);
      NoneDropped(ep, Right());
      for i := 0 to |goners|
        invariant Wired()
        invariant SliceIs(Left(), ep, AfterAll(m, goners[..i])) && SameElsewhere(old(Left()), Left(), ep)
        invariant Right() == old(Right())
        invariant forall k :: k in lost <==> k in old(lost) || Dropped(ep, goners[..i], old(Right()), k)
      {
        var c := goners[i];
        assert goners[..i + 1] == goners[..i] + [c];
        AfterAllSnoc(m, goners[..i], c);
        StillThere(Left(), ep, m, goners, i);
        SliceStep(old(Left()), Left(), ep, AfterAll(m, goners[..i]), c);
        ghost var left, was := Left(), lost;
        ghost var out := Change(JoinOp.DeleteLeft(ep, c.key));
        DropStep(left, old(Right()), ep, goners[..i], c, was, old(lost), out);
      }
      assert goners[..|goners|] == goners;
    }

    /** Brings the downsync input for one EdgePlacement in line with what is now called for. */
    method ReceiveDownsync(ep: ExternalName, target: map<WorkloadPartID, WorkloadPartDetails>)
      requires Valid()
      modifies `lost, `perCluster, Downsync()
      ensures Valid()
      ensures perCluster == Set(old(perCluster), ep, old(At(perCluster, ep)).(downsync := target))
      ensures forall upsync ::
                LostAsSaid(organizer.goesToMailbox, old(perCluster), old(lost), Event.WhatPut(ep, target, upsync), lost)
    {
      hide Wired, SliceIs, SameElsewhere, AfterAll, Downsync, Left, Right, Joined, UpsyncLeft, UpsyncRight,
           DownsyncInput, UpsyncInput, WhereInput, At, Set, Dropped, Restored, LostAsSaid;
      var p := At(perCluster, ep);
      PartsAreApart();
      ghost var pc, left := perCluster, Left();
      SliceOfInput(perCluster, Left(), ep);
      WhereOf(perCluster, ep, Right());
      var puts, goners := MapUpdateToMatch(p.downsync, target);
      PutParts(ep, puts, p.downsync);
      GonersRemain(p.downsync, puts, target);
      ghost var mid, lost1 := Left(), lost;
      DropParts(ep, goners, AfterAll(p.downsync, puts));
      SameElsewhereTwice(left, mid, Left(), ep);
      perCluster := Set(perCluster, ep, p.(downsync := target));
      InputFromSlice(pc, left, Left(), ep, p.(downsync := target));
      SameWhere(pc, ep, p.(downsync := target), Right());
      SameWhere(pc, ep, p.(downsync := target), UpsyncRight());
      SameUpsync(pc, ep, p.(downsync := target), UpsyncLeft());
      forall upsync
        ensures LostAsSaid(organizer.goesToMailbox, pc, old(lost), Event.WhatPut(ep, target, upsync), lost)
      {
        WhatLoses(organizer.goesToMailbox, pc, Right(), ep, target, puts, goners, old(lost), lost1, lost, upsync);
      }
    }

    /** Nothing that is wanted is lost, in terms of what is called for. */
    lemma CorrectIs()
      requires Valid()
      ensures Correct() <==> NoneLost(organizer.goesToMailbox, perCluster, lost)
    {
      hide DownsyncInput, UpsyncInput, WhereInput, Wired, NoneLost, NothingMissing, IsJoin;
      WiredJoins();
      WantedTuples(organizer.goesToMailbox, perCluster, Left(), Right(), Joined(), lost);
    }

    /** The upsync part of the pipeline is not touched by the downsync part. */
    lemma PartsAreApart()
      requires Wired()
      ensures this !in stages && this !in Downsync() && this !in Upsync() && Downsync() <= stages && Upsync() <= stages
      ensures upsyncJoin !in Downsync() && upsyncJoin.xy !in Downsync() && upsyncJoin.xz !in Downsync()
      ensures downsyncJoin !in Upsync() && downsyncJoin.xyv !in Upsync() && downsyncJoin.xz !in Upsync()
    {
      hide DynamicJoin12VWith13.Valid, DynamicFullJoin12with13.Valid, Organizer.Valid, Routed;
    }

    lemma WiredJoins()
      requires Wired()
      ensures IsJoin(Left(), Right(), Joined())
    {
      downsyncJoin.JoinsItsInputs();
    }

    // ----- Upsync -----

    /** What the upsync part of the pipeline may change. */
    ghost function Upsync(): set<object> {
      {upsyncJoin, upsyncJoin.xy, upsyncJoin.xz, organizer.upsyncsFull, organizer.upsyncs}
    }

    method FeedUpsyncs(out: seq<SetChange<UpsyncTuple>>)
      requires organizer.Valid()
      modifies organizer.upsyncsFull, organizer.upsyncs
      ensures organizer.Valid()
      ensures organizer.upsyncsFull.contents == ChangedAll(old(organizer.upsyncsFull.contents), out)
      ensures organizer.namespaced.whatWhereFull.contents == old(organizer.namespaced.whatWhereFull.contents)
      ensures organizer.clusterScoped.whatWhereFull.contents == old(organizer.clusterScoped.whatWhereFull.contents)
    {
      hide Organizer.Valid, ChangedAll;
      ChangedNone(organizer.upsyncsFull.contents);
      for i := 0 to |out|
        invariant organizer.Valid()
        invariant organizer.upsyncsFull.contents == ChangedAll(old(organizer.upsyncsFull.contents), out[..i])
        invariant organizer.namespaced.whatWhereFull.contents == old(organizer.namespaced.whatWhereFull.contents)
        invariant organizer.clusterScoped.whatWhereFull.contents == old(organizer.clusterScoped.whatWhereFull.contents)
      {
        assert out[..i + 1] == out[..i] + [out[i]];
        ChangedAllSnoc(old(organizer.upsyncsFull.contents), out[..i], out[i]);
        organizer.ChangeUpsync(out[i]);
      }
      assert out[..|out|] == out;
    }

    method ChangeUpsyncLeft(add: bool, ep: ExternalName, u: UpsyncSet)
      requires Wired()
      modifies Upsync()
      ensures Wired()
      ensures UpsyncLeft() == RelationAfter(old(UpsyncLeft()), add, ep, u)
      ensures UpsyncRight() == old(UpsyncRight())
    {
      hide DynamicJoin12VWith13.Valid, DynamicFullJoin12with13.Valid, Organizer.Valid, Routed, ChangedAll, Strict;
      var out := upsyncJoin.ChangeLeft(add, ep, u);
      FeedUpsyncs(out);
    }

    method ChangeUpsyncRight(add: bool, ep: ExternalName, sp: SinglePlacement)
      requires Wired()
      modifies Upsync()
      ensures Wired()
      ensures UpsyncRight() == RelationAfter(old(UpsyncRight()), add, ep, sp)
      ensures UpsyncLeft() == old(UpsyncLeft())
    {
      hide DynamicJoin12VWith13.Valid, DynamicFullJoin12with13.Valid, Organizer.Valid, Routed, ChangedAll, Strict;
      var out := upsyncJoin.ChangeRight(add, ep, sp);
      FeedUpsyncs(out);
    }

    method ReceiveUpsync(ep: ExternalName, newWhole: seq<UpsyncSet>)
      requires Valid()
      modifies `perCluster, Upsync()
      ensures Valid()
      ensures perCluster == Set(old(perCluster), ep, old(At(perCluster, ep)).(upsync := newWhole))
      ensures old(Correct()) == Correct()
    {
      hide Wired, Upsync, Downsync, Left, Right, Joined, UpsyncLeft, UpsyncRight, DownsyncInput, UpsyncInput,
           WhereInput, At, Set, RelatedTo, UnrelatedSame, RelationAfter, ChangedAll, Elements, Correct;
      var p := At(perCluster, ep);
      PartsAreApart();
      ghost var pc := perCluster;
      UpsyncRelated(perCluster, ep, UpsyncLeft());
      UnrelatedItself(UpsyncLeft(), ep);
      var out := SliceDifference(p.upsync, newWhole);
      ChangedNone(Elements(p.upsync));
      for i := 0 to |out|
        invariant Wired() && perCluster == pc
        invariant RelatedTo(UpsyncLeft(), ep, ChangedAll(Elements(p.upsync), out[..i]))
                  && UnrelatedSame(old(UpsyncLeft()), UpsyncLeft(), ep)
        invariant UpsyncRight() == old(UpsyncRight())
      {
        assert out[..i + 1] == out[..i] + [out[i]];
        ChangedAllSnoc(Elements(p.upsync), out[..i], out[i]);
        RelationStep(old(UpsyncLeft()), UpsyncLeft(), ep, ChangedAll(Elements(p.upsync), out[..i]), out[i]);
        ChangeUpsyncLeft(out[i].Add?, ep, out[i].elt);
      }
      assert out[..|out|] == out;
      perCluster := Set(perCluster, ep, p.(upsync := newWhole));
      UpsyncFromRelated(pc, ep, p.(upsync := newWhole), old(UpsyncLeft()), UpsyncLeft());
      SameWhere(pc, ep, p.(upsync := newWhole), Right());
      SameWhere(pc, ep, p.(upsync := newWhole), UpsyncRight());
      SameDownsync(pc, ep, p.(upsync := newWhole), Left());
    }

    // ----- Where -----

    /** Tells both joins about a destination that came or went. */
    method ChangeWhere(add: bool, ep: ExternalName, sp: SinglePlacement)
      requires Wired()
      modifies `lost, Downsync(), Upsync()
      ensures Wired()
      ensures Right() == RelationAfter(old(Right()), add, ep, sp)
              && UpsyncRight() == RelationAfter(old(UpsyncRight()), add, ep, sp)
      ensures Left() == old(Left()) && UpsyncLeft() == old(UpsyncLeft())
      ensures forall k: ClusterScopedKey | !(k.0 == ep && k.2 == sp) :: k in lost <==> k in old(lost)
      ensures add && (ep, sp) !in old(Right()) ==>
                forall k: ClusterScopedKey | k.0 == ep && k.2 == sp && (ep, Bare(k)) in Left() :: k !in lost
    {
      hide Wired, Upsync, Downsync, Left, Right, Joined, UpsyncLeft, UpsyncRight, Emits, LostAll;
      PartsAreApart();
      if add {
        ghost var out := Change(JoinOp.AddRight(ep, sp));
        AddedRestores(old(Left()), old(Right()), ep, sp, old(lost), out);
      } else {
        ghost var out := Change(JoinOp.RemoveRight(ep, sp));
        RemovedElsewhere(old(Left()), old(Right()), ep, sp, old(lost), out);
      }
      ChangeUpsyncRight(add, ep, sp);
    }

    method ChangeWheres(add: bool, ep: ExternalName, sps: seq<SinglePlacement>, ghost s: set<SinglePlacement>)
      requires Wired() && RelatedTo(Right(), ep, s) && RelatedTo(UpsyncRight(), ep, s)
      requires add ==> Distinct(sps) && Elements(sps) !! s
      modifies `lost, Downsync(), Upsync()
      ensures Wired()
      ensures var s' := if add then s + Elements(sps) else s - Elements(sps);
              RelatedTo(Right(), ep, s') && RelatedTo(UpsyncRight(), ep, s')
      ensures UnrelatedSame(old(Right()), Right(), ep) && UnrelatedSame(old(UpsyncRight()), UpsyncRight(), ep)
      ensures Left() == old(Left()) && UpsyncLeft() == old(UpsyncLeft())
      ensures forall k: ClusterScopedKey | !(k.0 == ep && k.2 in sps) :: k in lost <==> k in old(lost)
      ensures add ==> WhereAdded(Left(), ep, sps, old(lost), lost)
    {
      hide Wired, Upsync, Downsync, Left, Right, Joined, UpsyncLeft, UpsyncRight, RelatedTo, UnrelatedSame,
           RelationAfter, WhereAdded;
      NoneAdded(Left(), ep, lost);
      UnrelatedItself(Right(), ep);
      UnrelatedItself(UpsyncRight(), ep);
      ghost var now := s;
      for i := 0 to |sps|
        invariant Wired()
        invariant now == if add then s + Elements(sps[..i]) else s - Elements(sps[..i])
        invariant RelatedTo(Right(), ep, now) && RelatedTo(UpsyncRight(), ep, now)
        invariant UnrelatedSame(old(Right()), Right(), ep) && UnrelatedSame(old(UpsyncRight()), UpsyncRight(), ep)
        invariant Left() == old(Left()) && UpsyncLeft() == old(UpsyncLeft())
        invariant forall k: ClusterScopedKey | !(k.0 == ep && k.2 in sps[..i]) :: k in lost <==> k in old(lost)
        invariant add ==> WhereAdded(Left(), ep, sps[..i], old(lost), lost)
      {
        PrefixElements(sps, i);
        ghost var was := lost;
        if add {
          assert sps[i] in Elements(sps);
          NotRelated(Right(), ep, now, sps[i]);
        }
        ghost var c := if add then SetChange.Add(sps[i]) else SetChange.Remove(sps[i]);
        RelationStep(old(Right()), Right(), ep, now, c);
        RelationStep(old(UpsyncRight()), UpsyncRight(), ep, now, c);
        ChangeWhere(add, ep, sps[i]);
        OneMoreAdded(Left(), ep, sps, i, add, old(lost), was, lost);
        now := Changed(now, c);
      }
      assert sps[..|sps|] == sps;
    }

    method ReceiveWhere(ep: ExternalName, target: seq<seq<SinglePlacement>>)
      requires Valid()
      modifies `lost, `perCluster, Downsync(), Upsync()
      ensures Valid()
      ensures perCluster == Set(old(perCluster), ep, old(At(perCluster, ep)).(where := Destinations(target)))
      ensures LostAsSaid(organizer.goesToMailbox, old(perCluster), old(lost), Event.WherePut(ep, target), lost)
    {
      hide Wired, Upsync, Downsync, Left, Right, Joined, UpsyncLeft, UpsyncRight, DownsyncInput, UpsyncInput,
           WhereInput, At, Set, RelatedTo, UnrelatedSame, Elements, Destinations, LostAsSaid, WhereAdded;
      var p := At(perCluster, ep);
      PartsAreApart();
      ghost var pc := perCluster;
      WhereRelated(perCluster, ep, Right());
      WhereRelated(perCluster, ep, UpsyncRight());
      var adds, removes := SetUpdateToMatch(p.where, target);
      ChangeWheres(true, ep, adds, p.where);
      ghost var mid, upsyncMid, lost1 := Right(), UpsyncRight(), lost;
      ChangeWheres(false, ep, removes, p.where + Elements(adds));
      assert p.where + Elements(adds) - Elements(removes) == Destinations(target);
      UnrelatedTwice(old(Right()), mid, Right(), ep);
      UnrelatedTwice(old(UpsyncRight()), upsyncMid, UpsyncRight(), ep);
      ghost var p' := p.(where := Destinations(target));
      perCluster := Set(perCluster, ep, p.(where := Destinations(target)));
      WhereFromRelated(pc, ep, p', old(Right()), Right());
      WhereFromRelated(pc, ep, p', old(UpsyncRight()), UpsyncRight());
      SameDownsync(pc, ep, p', Left());
      SameUpsync(pc, ep, p', UpsyncLeft());
      WhereLoses(organizer.goesToMailbox, pc, Left(), ep, target, adds, removes, old(lost), lost1, lost);
    }

    // ----- What the pipeline is told from outside -----

    /** From any state: all that the new "what" wants is in place exactly without a collision. */
    method WhatPut(ep: ExternalName, downsync: map<WorkloadPartID, WorkloadPartDetails>, upsync: seq<UpsyncSet>)
      requires Valid()
      modifies `lost, `perCluster, Downsync(), Upsync()
      ensures Valid() && perCluster == Next(old(perCluster), Event.WhatPut(ep, downsync, upsync))
      ensures LostAsSaid(organizer.goesToMailbox, old(perCluster), old(lost), Event.WhatPut(ep, downsync, upsync), lost)
      ensures (forall k: ClusterScopedKey | k.0 == ep && Wants(organizer.goesToMailbox, perCluster, k) ::
                 k !in lost) <==>
              !Harmful(organizer.goesToMailbox, old(perCluster), Event.WhatPut(ep, downsync, upsync))
    {
      hide Wired, Upsync, Downsync, Left, Right, Joined, UpsyncLeft, UpsyncRight, DownsyncInput, UpsyncInput,
           WhereInput, At, Set, LostAsSaid, Harmful, Wants;
      PartsAreApart();
      SetTwice(perCluster, ep, At(perCluster, ep).(downsync := downsync), upsync);
      ReceiveDownsync(ep, downsync);
      ReceiveUpsync(ep, upsync);
      CollisionDecides(organizer.goesToMailbox, old(perCluster), old(lost), Event.WhatPut(ep, downsync, upsync), lost);
    }

    method WhatDelete(ep: ExternalName)
      requires Valid()
      modifies `lost, `perCluster, Downsync(), Upsync()
      ensures Valid() && perCluster == Next(old(perCluster), Event.WhatDelete(ep))
      ensures LostAsSaid(organizer.goesToMailbox, old(perCluster), old(lost), Event.WhatDelete(ep), lost)
    {
      hide Wired, Upsync, Downsync, Left, Right, Joined, UpsyncLeft, UpsyncRight, DownsyncInput, UpsyncInput,
           WhereInput, At, Set, LostAsSaid;
      if ep.cluster !in perCluster {
        DeletesLose(organizer.goesToMailbox, perCluster, lost, ep, lost);
        return;
      }
      PartsAreApart();
      SetTwice(perCluster, ep, At(perCluster, ep).(downsync := map[]), []);
      ReceiveDownsync(ep, map[]);
      ReceiveUpsync(ep, []);
      DeletesLose(organizer.goesToMailbox, old(perCluster), old(lost), ep, lost);
    }

    method WherePut(ep: ExternalName, where: seq<seq<SinglePlacement>>)
      requires Valid()
      modifies `lost, `perCluster, Downsync(), Upsync()
      ensures Valid() && perCluster == Next(old(perCluster), Event.WherePut(ep, where))
      ensures LostAsSaid(organizer.goesToMailbox, old(perCluster), old(lost), Event.WherePut(ep, where), lost)
    {
      hide Wired, Upsync, Downsync, Valid, At, Set, LostAsSaid;
      ReceiveWhere(ep, where);
    }

    method WhereDelete(ep: ExternalName)
      requires Valid()
      modifies `lost, `perCluster, Downsync(), Upsync()
      ensures Valid() && perCluster == Next(old(perCluster), Event.WhereDelete(ep))
      ensures LostAsSaid(organizer.goesToMailbox, old(perCluster), old(lost), Event.WhereDelete(ep), lost)
    {
      hide Wired, Upsync, Downsync, Valid, At, Set, LostAsSaid;
      DeletesLose(organizer.goesToMailbox, perCluster, lost, ep, lost);
      if ep.cluster !in perCluster {
        return;
      }
      ReceiveWhere(ep, []);
      DeletesLose(organizer.goesToMailbox, old(perCluster), old(lost), ep, lost);
    }

    /** One event, from any state: which of the wanted entries are lost afterwards. */
    method Handle(e: Event)
      requires Valid()
      modifies `lost, `perCluster, stages
      ensures Valid() && perCluster == Next(old(perCluster), e)
      ensures LostAsSaid(organizer.goesToMailbox, old(perCluster), old(lost), e, lost)
      ensures old(Correct()) ==> (Correct() <==> !Harmful(organizer.goesToMailbox, old(perCluster), e))
    {
      hide Wired, Upsync, Downsync, Left, Right, UpsyncLeft, UpsyncRight, DownsyncInput, UpsyncInput, WhereInput, At,
           Set, Correct, Next, Harmful, LostAsSaid, NoneLost, Wants;
      PartsAreApart();
      CorrectIs();
      match e {
        case WhatPut(ep, downsync, upsync) => WhatPut(ep, downsync, upsync);
        case WhatDelete(ep) => WhatDelete(ep);
        case WherePut(ep, where) => WherePut(ep, where);
        case WhereDelete(ep) => WhereDelete(ep);
      }
      CorrectIs();
      if old(Correct()) {
        HarmDecides(organizer.goesToMailbox, old(perCluster), old(lost), e, lost);
      }
    }

    /** Any run, from any state: which of the wanted entries are lost in the end. */
    method Run(events: seq<Event>)
      requires Valid()
      modifies `lost, `perCluster, stages
      ensures Valid() && perCluster == AfterEvents(old(perCluster), events)
      ensures Accounts(organizer.goesToMailbox, old(perCluster), old(lost), events, lost)
      ensures old(Correct()) && Harmless(organizer.goesToMailbox, old(perCluster), events) ==> Correct()
    {
      hide Wired, Upsync, Downsync, Left, Right, Joined, UpsyncLeft, UpsyncRight, DownsyncInput, UpsyncInput,
           WhereInput, At, Set, Correct, Next, Harmful, LostAsSaid, Accounts;
      AccountsAtFirst(organizer.goesToMailbox, perCluster, lost);
      for i := 0 to |events|
        invariant Valid() && perCluster == AfterEvents(old(perCluster), events[..i])
        invariant Accounts(organizer.goesToMailbox, old(perCluster), old(lost), events[..i], lost)
        invariant old(Correct()) && Harmless(organizer.goesToMailbox, old(perCluster), events[..i]) ==> Correct()
      {
        assert events[..i + 1] == events[..i] + [events[i]];
        assert events[..i + 1][..i] == events[..i];
        ghost var was := lost;
        Handle(events[i]);
        AccountsNext(organizer.goesToMailbox, old(perCluster), old(lost), events[..i], events[i], was, lost);
      }
      assert events[..|events|] == events;
    }
  }
}
