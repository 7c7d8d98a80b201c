/**
 The syncer's record of what its sync configs list now and what they listed before
 (pkg/syncer/controller/syncconfigmanager.go).
 */
module SyncConfigManagement {
  import opened Changes

  datatype SyncConfig<R> = SyncConfig(name: string, down: seq<R>, up: seq<R>)

  type Configs<R> = map<string, SyncConfig<R>>

  /** A set of resources, and the slice of them that is handed out. */
  datatype IndexedResources<R> = IndexedResources(synced: seq<R>, index: set<R>)

  ghost predicate Lists<R>(x: IndexedResources<R>) {
    Distinct(x.synced) && Elements(x.synced) == x.index
  }

  function Listed<R>(c: SyncConfig<R>, down: bool): seq<R> {
    if down then c.down else c.up
  }

  /** What some config lists. */
  ghost predicate Wants<R>(configs: Configs<R>, down: bool, r: R) {
    exists n :: n in configs && r in Listed(configs[n], down)
  }

  lemma WantsIs<R>(configs: Configs<R>, r: R)
    ensures Wants(configs, true, r) <==> exists n :: n in configs && r in configs[n].down
    ensures Wants(configs, false, r) <==> exists n :: n in configs && r in configs[n].up
  {
    assert forall n | n in configs :: Listed(configs[n], true) == configs[n].down;
    assert forall n | n in configs :: Listed(configs[n], false) == configs[n].up;
  }

  /** What some config listed at some time, given all the collections of configs there have been. */
  ghost predicate EverWanted<R>(history: seq<Configs<R>>, down: bool, r: R) {
    exists t :: 0 <= t < |history| && Wants(history[t], down, r)
  }

  /** Synced is what is listed now; unsynced is what was listed once and is not now. */
  ghost predicate Tracks<R(!new)>(history: seq<Configs<R>>, configs: Configs<R>, down: bool,
                                  synced: IndexedResources<R>, unsynced: IndexedResources<R>) {
    && Lists(synced) && (forall r :: r in synced.index <==> Wants(configs, down, r))
    && Lists(unsynced) && (forall r ::
         r in unsynced.index <==> EverWanted(history, down, r) && !Wants(configs, down, r))
  }

  lemma KeepsTrack<R(!new)>(history: seq<Configs<R>>, configs: Configs<R>, next: Configs<R>, down: bool,
                            synced: IndexedResources<R>, unsynced: IndexedResources<R>, synced': IndexedResources<R>,
                            unsynced': IndexedResources<R>)
    requires history != [] && history[|history| - 1] == configs && Tracks(history, configs, down, synced, unsynced)
    requires Lists(synced') && forall r :: r in synced'.index <==> Wants(next, down, r)
    requires Lists(unsynced') && unsynced'.index == unsynced.index + synced.index - synced'.index
    ensures Tracks(history + [next], next, down, synced', unsynced')
  {
    hide Lists, Wants, EverWanted;
    forall r
      ensures r in unsynced'.index <==> EverWanted(history + [next], down, r) && !Wants(next, down, r)
    {
      EverWantedOnceMore(history, next, down, r);
    }
  }

  method CreateIndexed<R(==)>(resources: seq<R>) returns (x: IndexedResources<R>)
    ensures Lists(x) && x.index == Elements(resources)
    ensures multiset(x.synced) == multiset(x.index)
  {
    var index := {};
    for i := 0 to |resources|
      invariant index == Elements(resources[..i])
    {
      PrefixElements(resources, i);
      if resources[i] !in index {
        index := index + {resources[i]};
      }
    }
    assert resources[..|resources|] == resources;
    var synced := VisitOrder(index);
    x := IndexedResources(synced, index);
    OnceEach(synced);
  }

  method CreateDownAndUp<R(==, !new)>(configs: Configs<R>) returns (down: IndexedResources<R>, up: IndexedResources<R>)
    ensures Lists(down) && forall r :: r in down.index <==> Wants(configs, true, r)
    ensures Lists(up) && forall r :: r in up.index <==> Wants(configs, false, r)
    ensures forall r :: r in down.index <==> exists n :: n in configs && r in configs[n].down
    ensures forall r :: r in up.index <==> exists n :: n in configs && r in configs[n].up
  {
    var names := VisitOrder(configs.Keys);
    assert forall n :: n in names <==> n in Elements(names);
    var downs, ups := [], [];
    for i := 0 to |names|
      invariant forall r :: r in downs <==> exists n :: n in names[..i] && r in configs[n].down
      invariant forall r :: r in ups <==> exists n :: n in names[..i] && r in configs[n].up
    {
      assert forall n :: n in names[..i + 1] <==> n in names[..i] || n == names[i];
      downs := downs + configs[names[i]].down;
      ups := ups + configs[names[i]].up;
    }
    assert names[..|names|] == names;
    forall r { WantsIs(configs, r); }
    down := CreateIndexed(downs);
    up := CreateIndexed(ups);
  }

  /** What was unsynced or synced and is not synced now. */
  method UpdateUnsynced<R(==)>(unsynced: IndexedResources<R>, current: IndexedResources<R>,
                               next: IndexedResources<R>) returns (x: IndexedResources<R>)
    ensures Lists(x) && x.index == unsynced.index + current.index - next.index
  {
    var all := [];
    var olds := VisitOrder(unsynced.index);
    for i := 0 to |olds|
      invariant Elements(all) == Elements(olds[..i]) - next.index
    {
      PrefixElements(olds, i);
      if olds[i] !in next.index {
        assert Elements(all + [olds[i]]) == Elements(all) + {olds[i]};
        all := all + [olds[i]];
      }
    }
    assert olds[..|olds|] == olds;
    var synced := VisitOrder(current.index);
    for i := 0 to |synced|
      invariant Elements(all) == unsynced.index + Elements(synced[..i]) - next.index
    {
      PrefixElements(synced, i);
      if synced[i] !in next.index {
        assert Elements(all + [synced[i]]) == Elements(all) + {synced[i]};
        all := all + [synced[i]];
      }
    }
    assert synced[..|synced|] == synced;
    x := CreateIndexed(all);
  }

  class SyncConfigManager<R(==, !new)> {
    var configs: Configs<R>
    var down: IndexedResources<R>
    var up: IndexedResources<R>
    var downUnsynced: IndexedResources<R>
    var upUnsynced: IndexedResources<R>
    ghost var history: seq<Configs<R>>

    ghost predicate Valid()
      reads this
    {
      && history != [] && history[|history| - 1] == configs
      && Tracks(history, configs, true, down, downUnsynced) && Tracks(history, configs, false, up, upUnsynced)
    }

    constructor ()
      ensures Valid() && configs == map[] && history == [map[]]
    {
      configs := map[];
      down, up := IndexedResources([], {}), IndexedResources([], {});
      downUnsynced, upUnsynced := IndexedResources([], {}), IndexedResources([], {});
      history := [map[]];
    }

    method Upsert(config: SyncConfig<R>)
      requires Valid()
      modifies this
      ensures Valid() && configs == old(configs)[config.name := config] && history == old(history) + [configs]
      ensures forall r | r in config.down :: r in down.index && r !in downUnsynced.index
      ensures forall r | r in config.up :: r in up.index && r !in upUnsynced.index
    {
      Refresh(configs[config.name := config]);
      InTerms();
      Disjoint();
      assert config.name in configs && configs[config.name] == config;
    }

    method Delete(name: string)
      requires Valid()
      modifies this
      ensures Valid() && configs == old(configs) - {name} && history == old(history) + [configs]
      ensures name in old(configs) ==> forall r | r in old(configs)[name].down && r !in down.index ::
                r in downUnsynced.index
      ensures name in old(configs) ==> forall r | r in old(configs)[name].up && r !in up.index ::
                r in upUnsynced.index
    {
      Refresh(configs - {name});
      InTerms();
      assert history[|history| - 2] == old(configs);
    }

    method Refresh(next: Configs<R>)
      requires Valid()
      modifies this
      ensures Valid() && configs == next && history == old(history) + [next]
    {
      hide Lists, Wants, Tracks;
      SameSynced(history, configs, true, down, downUnsynced);
      SameSynced(history, configs, false, up, upUnsynced);
      var currentDown, currentUp := CreateDownAndUp(configs);
      assert currentDown.index == down.index && currentUp.index == up.index;
      var nextDown, nextUp := CreateDownAndUp(next);
      var nextDownUnsynced := UpdateUnsynced(downUnsynced, currentDown, nextDown);
      var nextUpUnsynced := UpdateUnsynced(upUnsynced, currentUp, nextUp);
      KeepsTrack(history, configs, next, true, down, downUnsynced, nextDown, nextDownUnsynced);
      KeepsTrack(history, configs, next, false, up, upUnsynced, nextUp, nextUpUnsynced);
      down, downUnsynced := nextDown, nextDownUnsynced;
      up, upUnsynced := nextUp, nextUpUnsynced;
      configs := next;
      history := history + [next];
    }

    /** Each way: synced is what a config lists now; unsynced is what one did list and none lists now. */
    lemma InTerms()
      requires Valid()
      ensures forall r :: r in down.index <==> exists n :: n in configs && r in configs[n].down
      ensures forall r :: r in up.index <==> exists n :: n in configs && r in configs[n].up
      ensures forall r :: r in downUnsynced.index <==>
                && (exists t, n :: 0 <= t < |history| && n in history[t] && r in history[t][n].down)
                && !exists n :: n in configs && r in configs[n].down
      ensures forall r :: r in upUnsynced.index <==>
                && (exists t, n :: 0 <= t < |history| && n in history[t] && r in history[t][n].up)
                && !exists n :: n in configs && r in configs[n].up
    {
      forall r { WantsIs(configs, r); }
      forall r, t | 0 <= t < |history| { WantsIs(history[t], r); }
    }

    /** The synced and the unsynced resources have nothing in common. */
    lemma Disjoint()
      requires Valid()
      ensures down.index !! downUnsynced.index && up.index !! upUnsynced.index
    {
    }
  }

  lemma SameSynced<R(!new)>(history: seq<Configs<R>>, configs: Configs<R>, down: bool, synced: IndexedResources<R>,
                            unsynced: IndexedResources<R>)
    requires Tracks(history, configs, down, synced, unsynced)
    ensures forall r :: r in synced.index <==> Wants(configs, down, r)
  {
  }

  lemma EverWantedOnceMore<R>(history: seq<Configs<R>>, next: Configs<R>, down: bool, r: R)
    ensures EverWanted(history + [next], down, r) <==> EverWanted(history, down, r) || Wants(next, down, r)
    ensures history != [] && Wants(history[|history| - 1], down, r) ==> EverWanted(history, down, r)
  {
    hide Wants;
    var all := history + [next];
    assert all[|history|] == next;
    if EverWanted(history, down, r) {
      var t :| 0 <= t < |history| && Wants(history[t], down, r);
      assert all[t] == history[t];
    }
  }
}
