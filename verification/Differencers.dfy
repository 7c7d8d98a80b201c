/**
 Turning successive whole values into changes: of a map and of a set
 (pkg/placement/map-set-differencer.go) and of a slice (pkg/placement/slice-differencer.go).
 */
module Differencers {
  import opened Changes

  /**
   Brings `current` in line with `target`. Every target mapping is put, also when it is not new,
   and then the mappings that are not in the target go; the visits follow no particular order.
   */
  method MapUpdateToMatch<K(==, !new), V>(current: map<K, V>, target: map<K, V>)
    returns (puts: seq<MapChange<K, V>>, goners: seq<MapChange<K, V>>)
    ensures forall c :: c in puts <==> c.Put? && c.key in target && c.val == target[c.key]
    ensures forall c :: c in goners <==> c.Delete? && c.key in current && c.key !in target
    ensures Distinct(goners)
    ensures AfterAll(AfterAll(current, puts), goners) == target
  {
    var keys := VisitOrder(target.Keys);
    assert forall k :: k in keys <==> k in Elements(keys);
    puts := [];
    var gone := current.Keys;
    for i := 0 to |keys|
      invariant forall c :: c in puts <==> c.Put? && c.key in keys[..i] && c.val == target[c.key]
      invariant forall k :: k in gone <==> k in current && k !in keys[..i]
    {
      assert keys[..i + 1] == keys[..i] + [keys[i]];
      puts := puts + [MapChange.Put(keys[i], target[keys[i]])];
      gone := gone - {keys[i]};
    }
    assert keys[..|keys|] == keys;
    var olds := VisitOrder(gone);
    assert forall k :: k in olds <==> k in Elements(olds);
    goners := [];
    for i := 0 to |olds|
      invariant forall c :: c in goners <==> c.Delete? && c.key in olds[..i]
      invariant Distinct(goners)
    {
      PrefixElements(olds, i);
      assert olds[..i + 1] == olds[..i] + [olds[i]];
      goners := goners + [MapChange.Delete(olds[i])];
    }
    assert olds[..|olds|] == olds;
    MapDifference(current, target, puts, goners);
  }

  lemma MapDifference<K(!new), V>(current: map<K, V>, target: map<K, V>, puts: seq<MapChange<K, V>>,
                                  goners: seq<MapChange<K, V>>)
    requires forall c :: c in puts <==> c.Put? && c.key in target && c.val == target[c.key]
    requires forall c :: c in goners <==> c.Delete? && c.key in current && c.key !in target
    ensures AfterAll(AfterAll(current, puts), goners) == target
  {
    hide AfterAll;
    AllPuts(current, puts);
    var mid := AfterAll(current, puts);
    AllDeletes(mid, goners);
    var end := AfterAll(mid, goners);
    forall k
      ensures k in end <==> k in target
      ensures k in target ==> end[k] == target[k]
    {
      if k in target {
        assert MapChange.Put(k, target[k]) in puts;
      } else if k in mid {
        assert k in current;
        assert MapChange<K, V>.Delete(k) in goners;
      }
    }
    SameMap(end, target);
  }

  /** A resolved "where" is a list of slices, each with a list of destinations; repeats are allowed. */
  function Destinations<T>(where: seq<seq<T>>): set<T> {
    set i, j | 0 <= i < |where| && 0 <= j < |where[i]| :: where[i][j]
  }

  /** Every change handed on is a true one; the additions come first. */
  method SetUpdateToMatch<T(==, !new)>(current: set<T>, target: seq<seq<T>>) returns (adds: seq<T>, removes: seq<T>)
    ensures Distinct(adds) && Elements(adds) == Destinations(target) - current
    ensures Distinct(removes) && Elements(removes) == current - Destinations(target)
    ensures forall x :: x in adds <==> x !in current && exists i :: 0 <= i < |target| && x in target[i]
    ensures forall x :: x in removes <==> x in current && !exists i :: 0 <= i < |target| && x in target[i]
  {
    adds := [];
    var now, gone := current, current;
    for i := 0 to |target|
      invariant Distinct(adds) && Elements(adds) == Destinations(target[..i]) - current
      invariant now == current + Destinations(target[..i])
      invariant gone == current - Destinations(target[..i])
    {
      ghost var before := Destinations(target[..i]);
      for j := 0 to |target[i]|
        invariant Distinct(adds) && Elements(adds) == before + Elements(target[i][..j]) - current
        invariant now == current + before + Elements(target[i][..j])
        invariant gone == current - before - Elements(target[i][..j])
      {
        var x := target[i][j];
        PrefixElements(target[i], j);
        if x !in now {
          assert x !in Elements(adds);
          assert Elements(adds + [x]) == Elements(adds) + {x};
          adds := adds + [x];
          now := now + {x};
        }
        gone := gone - {x};
      }
      assert target[i][..|target[i]|] == target[i];
      MoreDestinations(target, i);
    }
    assert target[..|target|] == target;
    removes := VisitOrder(gone);
    DestinationsAre(target);
    assert forall x :: x in adds <==> x in Elements(adds);
    assert forall x :: x in removes <==> x in Elements(removes);
  }

  lemma DestinationsAre<T(!new)>(where: seq<seq<T>>)
    ensures forall x :: x in Destinations(where) <==> exists i :: 0 <= i < |where| && x in where[i]
  {
    forall x
      ensures x in Destinations(where) <==> exists i :: 0 <= i < |where| && x in where[i]
    {
      if i :| 0 <= i < |where| && x in where[i] {
        var j :| 0 <= j < |where[i]| && where[i][j] == x;
      }
    }
  }

  lemma MoreDestinations<T>(where: seq<seq<T>>, i: nat)
    requires i < |where|
    ensures Destinations(where[..i + 1]) == Destinations(where[..i]) + Elements(where[i])
  {
    var more := where[..i + 1];
    forall x | x in Destinations(where[..i]) + Elements(where[i])
      ensures x in Destinations(more)
    {
      if x in Destinations(where[..i]) {
        var k, j :| 0 <= k < i && 0 <= j < |where[..i][k]| && where[..i][k][j] == x;
        assert more[k][j] == x;
      } else {
        var j :| 0 <= j < |where[i]| && where[i][j] == x;
        assert more[i][j] == x;
      }
    }
    forall x | x in Destinations(more)
      ensures x in Destinations(where[..i]) + Elements(where[i])
    {
      var k, j :| 0 <= k < |more| && 0 <= j < |more[k]| && more[k][j] == x;
      if k < i {
        assert where[..i][k][j] == x;
      }
    }
  }

  /** Compares slices as sets: drops what is no longer there, then adds what was not there; repeats are handed on. */
  method SliceDifference<T(==, !new)>(current: seq<T>, newWhole: seq<T>) returns (out: seq<SetChange<T>>)
    ensures ChangedAll(Elements(current), out) == Elements(newWhole)
  {
    out := [];
    hide ChangedAll;
    ChangedNone(Elements(current));
    for i := 0 to |current|
      invariant forall x :: x in ChangedAll(Elements(current), out) <==>
                  x in current && (x in newWhole || x !in current[..i])
    {
      assert current[..i + 1] == current[..i] + [current[i]];
      if current[i] !in newWhole {
        ChangedAllSnoc(Elements(current), out, Remove(current[i]));
        out := out + [Remove(current[i])];
      }
    }
    for i := 0 to |newWhole|
      invariant forall x :: x in ChangedAll(Elements(current), out) <==>
                  (x in current && x in newWhole) || x in newWhole[..i]
    {
      assert newWhole[..i + 1] == newWhole[..i] + [newWhole[i]];
      if newWhole[i] !in current {
        ChangedAllSnoc(Elements(current), out, Add(newWhole[i]));
        out := out + [Add(newWhole[i])];
      }
    }
    assert newWhole[..|newWhole|] == newWhole;
    SameSet(ChangedAll(Elements(current), out), Elements(newWhole));
  }
}
