/**
 Sets of tuples held as an index from one part of the tuple to the set of the other parts
 (pkg/placement/set-indexed.go), and the change stream of a projection of such a set
 (pkg/placement/set-project.go).
 */
module IndexedSets {
  import opened Changes
  import opened FactoredMaps

  type Index<K, V> = map<K, set<V>>

  predicate Holds<K, V>(rep: Index<K, V>, k: K, v: V) {
    k in rep && v in rep[k]
  }

  /** The members of one bucket. */
  function Bucket<K, V>(rep: Index<K, V>, k: K): set<V> {
    if k in rep then rep[k] else {}
  }

  ghost predicate NoEmptyBucket<K, V>(rep: Index<K, V>) {
    forall k | k in rep :: rep[k] != {}
  }

  ghost predicate Indexes<T(!new), K, V>(f: Factorer<T, K, V>, rep: Index<K, V>, whole: set<T>) {
    forall t :: t in whole <==> Holds(rep, f.factor(t).0, f.factor(t).1)
  }

  /** The first parts of the tuples of a set. */
  ghost function Projection<T, K, V>(f: Factorer<T, K, V>, whole: set<T>): set<K> {
    set t | t in whole :: f.factor(t).0
  }

  function AddTo<K, V>(rep: Index<K, V>, k: K, v: V): Index<K, V> {
    rep[k := Bucket(rep, k) + {v}]
  }

  function RemoveFrom<K, V>(rep: Index<K, V>, k: K, v: V): Index<K, V> {
    if !Holds(rep, k, v) then rep
    else if rep[k] == {v} then rep - {k}
    else rep[k := rep[k] - {v}]
  }

  /** What the observer of the index keys hears: the first and last member of each bucket. */
  function KeyChanges<K, V>(before: Index<K, V>, after: Index<K, V>, k: K): seq<SetChange<K>> {
    if k !in before && k in after then [Add(k)]
    else if k in before && k !in after then [Remove(k)]
    else []
  }

  lemma AddIndexes<T(!new), K(!new), V(!new)>(f: Factorer<T, K, V>, rep: Index<K, V>, whole: set<T>, t: T)
    requires Bijective(f) && Indexes(f, rep, whole) && NoEmptyBucket(rep)
    ensures var rep' := AddTo(rep, f.factor(t).0, f.factor(t).1);
            Indexes(f, rep', whole + {t}) && NoEmptyBucket(rep')
  {
    var rep' := AddTo(rep, f.factor(t).0, f.factor(t).1);
    assert f.factor(t).1 in rep'[f.factor(t).0];
    forall t'
      ensures t' in whole + {t} <==> Holds(rep', f.factor(t').0, f.factor(t').1)
    {
      assert f.unfactor(f.factor(t').0, f.factor(t').1) == t';
      assert f.unfactor(f.factor(t).0, f.factor(t).1) == t;
    }
  }

  lemma RemoveIndexes<T(!new), K(!new), V(!new)>(f: Factorer<T, K, V>, rep: Index<K, V>, whole: set<T>, t: T)
    requires Bijective(f) && Indexes(f, rep, whole) && NoEmptyBucket(rep)
    ensures var rep' := RemoveFrom(rep, f.factor(t).0, f.factor(t).1);
            Indexes(f, rep', whole - {t}) && NoEmptyBucket(rep')
  {
    var (k, v) := f.factor(t);
    if Holds(rep, k, v) && rep[k] != {v} {
      var v' :| v' in rep[k] && v' != v;
      assert v' in rep[k] - {v};
    }
    var rep' := RemoveFrom(rep, k, v);
    forall t'
      ensures t' in whole - {t} <==> Holds(rep', f.factor(t').0, f.factor(t').1)
    {
      assert f.unfactor(f.factor(t').0, f.factor(t').1) == t';
      assert f.unfactor(k, v) == t;
    }
  }

  /** The keys of the index are the projection of the set. */
  lemma KeysAreProjection<T(!new), K(!new), V(!new)>(f: Factorer<T, K, V>, rep: Index<K, V>, whole: set<T>)
    requires Bijective(f) && Indexes(f, rep, whole) && NoEmptyBucket(rep)
    ensures rep.Keys == Projection(f, whole)
  {
    forall k | k in rep
      ensures k in Projection(f, whole)
    {
      var v :| v in rep[k];
      assert f.factor(f.unfactor(k, v)) == (k, v);
      assert f.unfactor(k, v) in whole;
    }
  }

  function Step<T, K, V>(f: Factorer<T, K, V>, rep: Index<K, V>, op: SetChange<T>): Index<K, V> {
    match op
    case Add(t) => AddTo(rep, f.factor(t).0, f.factor(t).1)
    case Remove(t) => RemoveFrom(rep, f.factor(t).0, f.factor(t).1)
  }

  lemma StepIndexes<T(!new), K(!new), V(!new)>(f: Factorer<T, K, V>, rep: Index<K, V>, whole: set<T>, op: SetChange<T>)
    requires Bijective(f) && Indexes(f, rep, whole) && NoEmptyBucket(rep)
    ensures Indexes(f, Step(f, rep, op), Changed(whole, op)) && NoEmptyBucket(Step(f, rep, op))
  {
    match op {
      case Add(t) => AddIndexes(f, rep, whole, t);
      case Remove(t) => RemoveIndexes(f, rep, whole, t);
    }
  }

  /** A change of one key at most is heard truly. */
  lemma KeysAreHeard<K, V>(before: Index<K, V>, after: Index<K, V>, k: K, sink: set<K>, heard: seq<SetChange<K>>)
    requires ChangedAll(sink, heard) == before.Keys && Strict(sink, heard)
    requires forall x | x != k :: x in before <==> x in after
    ensures var heard' := heard + KeyChanges(before, after, k);
            ChangedAll(sink, heard') == after.Keys && Strict(sink, heard')
  {
    hide ChangedAll, Strict;
    if k !in before && k in after {
      ChangedAllSnoc(sink, heard, Add(k));
      assert Changed(before.Keys, Add(k)) == after.Keys;
    } else if k in before && k !in after {
      ChangedAllSnoc(sink, heard, Remove(k));
      assert Changed(before.Keys, Remove(k)) == after.Keys;
    } else {
      assert before.Keys == after.Keys && heard + [] == heard;
    }
  }

  /** The keys change at most once, and truly, and the observer is told just that. */
  lemma StepIsHeard<T, K, V>(f: Factorer<T, K, V>, rep: Index<K, V>, op: SetChange<T>, sink: set<K>,
                             heard: seq<SetChange<K>>)
    requires ChangedAll(sink, heard) == rep.Keys && Strict(sink, heard)
    ensures var heard' := heard + KeyChanges(rep, Step(f, rep, op), f.factor(op.elt).0);
            ChangedAll(sink, heard') == Step(f, rep, op).Keys && Strict(sink, heard')
  {
    hide ChangedAll, Strict;
    KeysAreHeard(rep, Step(f, rep, op), f.factor(op.elt).0, sink, heard);
  }

  /** The index after a run of additions and removals, and all that its key observer has heard. */
  function RunIndex<T, K, V>(f: Factorer<T, K, V>, ops: seq<SetChange<T>>): Index<K, V> {
    if ops == [] then map[] else Step(f, RunIndex(f, ops[..|ops| - 1]), ops[|ops| - 1])
  }

  function RunHeard<T, K(==), V(==)>(f: Factorer<T, K, V>, ops: seq<SetChange<T>>): seq<SetChange<K>> {
    if ops == [] then [] else
      var init := ops[..|ops| - 1];
      RunHeard(f, init) + KeyChanges(RunIndex(f, init), RunIndex(f, ops), f.factor(ops[|ops| - 1].elt).0)
  }

  /**
   Whatever is added and removed, the downstream set is the projection of the upstream set, and
   downstream hears of a member only when its first tuple arrives and its last one leaves.
   */
  lemma {:induction false} RunProjects<T(!new), K(!new), V(!new)>(f: Factorer<T, K, V>, ops: seq<SetChange<T>>)
    requires Bijective(f)
    ensures NoEmptyBucket(RunIndex(f, ops))
    ensures Indexes(f, RunIndex(f, ops), ChangedAll({}, ops))
    ensures ChangedAll({}, RunHeard(f, ops)) == RunIndex(f, ops).Keys == Projection(f, ChangedAll({}, ops))
    ensures Strict({}, RunHeard(f, ops))
    ensures forall i | 0 <= i < |RunHeard(f, ops)| ::
              RunHeard(f, ops)[i].Add? <==> RunHeard(f, ops)[i].elt !in ChangedAll({}, RunHeard(f, ops)[..i])
  {
    if ops != [] {
      var init := ops[..|ops| - 1];
      RunProjects(f, init);
      StepIndexes(f, RunIndex(f, init), ChangedAll({}, init), ops[|ops| - 1]);
      StepIsHeard(f, RunIndex(f, init), ops[|ops| - 1], {}, RunHeard(f, init));
      KeysAreProjection(f, RunIndex(f, ops), ChangedAll({}, ops));
    }
    StrictAlong({}, RunHeard(f, ops));
  }

  class IndexedSet<T(==, !new), K(==, !new), V(==, !new)> {
    const factoring: Factorer<T, K, V>
    var rep: Index<K, V>
    ghost var contents: set<T>

    ghost predicate Valid()
      reads this
    {
      Bijective(factoring) && NoEmptyBucket(rep) && Indexes(factoring, rep, contents)
    }

    constructor (factoring: Factorer<T, K, V>)
      requires Bijective(factoring)
      ensures Valid() && this.factoring == factoring && contents == {} && rep == map[]
    {
      this.factoring := factoring;
      rep, contents := map[], {};
    }

    method Has(t: T) returns (r: bool)
      requires Valid()
      ensures r <==> t in contents
    {
      var (k, v) := factoring.factor(t);
      r := k in rep && v in rep[k];
    }

    /** `heard` is what an observer of the keys of the index is told. */
    method Add(t: T) returns (changed: bool, heard: seq<SetChange<K>>)
      requires Valid()
      modifies this
      ensures Valid() && contents == old(contents) + {t}
      ensures rep == AddTo(old(rep), factoring.factor(t).0, factoring.factor(t).1)
      ensures changed <==> t !in old(contents)
      ensures heard == KeyChanges(old(rep), rep, factoring.factor(t).0)
    {
      var (k, v) := factoring.factor(t);
      AddIndexes(factoring, rep, contents, t);
      heard := [];
      if k !in rep {
        rep := rep[k := {}];
        heard := [SetChange.Add(k)];
      }
      changed := v !in rep[k];
      rep := rep[k := rep[k] + {v}];
      contents := contents + {t};
    }

    method Remove(t: T) returns (changed: bool, heard: seq<SetChange<K>>)
      requires Valid()
      modifies this
      ensures Valid() && contents == old(contents) - {t}
      ensures rep == RemoveFrom(old(rep), factoring.factor(t).0, factoring.factor(t).1)
      ensures changed <==> t in old(contents)
      ensures heard == KeyChanges(old(rep), rep, factoring.factor(t).0)
    {
      var (k, v) := factoring.factor(t);
      RemoveIndexes(factoring, rep, contents, t);
      contents := contents - {t};
      heard := [];
      if k !in rep || v !in rep[k] {
        return false, [];
      }
      var vals := rep[k] - {v};
      if vals == {} {
        rep := rep - {k};
        heard := [SetChange.Remove(k)];
      } else {
        rep := rep[k := vals];
      }
      changed := true;
    }

    /** The second parts that go with one first part, in any order. */
    method Visit1to2(k: K) returns (vs: seq<V>)
      requires Valid()
      ensures Distinct(vs)
      ensures forall v :: v in vs <==> factoring.unfactor(k, v) in contents
      ensures Elements(vs) == Bucket(rep, k)
    {
      vs := [];
      if k in rep {
        vs := VisitOrder(rep[k]);
      }
      assert forall v :: v in vs <==> v in Elements(vs);
      assert forall v :: factoring.factor(factoring.unfactor(k, v)) == (k, v);
    }
  }
}
