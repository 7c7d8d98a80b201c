/** Which objects define which resources, kept both ways (pkg/apiwatch/definition-tracking.go). */
module DefinitionTracking {
  import opened Changes
  import opened IndexedSets

  lemma OneLess<R(!new), O(!new)>(index: Index<R, O>, rsc: R, oid: O)
    requires Holds(index, rsc, oid) && NoEmptyBucket(index)
    ensures var rest := index[rsc] - {oid};
            var next := if rest == {} then index - {rsc} else index[rsc := rest];
            && NoEmptyBucket(next)
            && forall r, o :: Holds(next, r, o) <==> Holds(index, r, o) && !(r == rsc && o == oid)
  {
  }

  class Tracker<Oid(==, !new), Rsc(==, !new)> {
    var definerToRscs: map<Oid, set<Rsc>>
    var rscToDefiners: map<Rsc, set<Oid>>

    /** Each is the transpose of the other, and no resource is kept without a definer. */
    ghost predicate Valid()
      reads this
    {
      && (forall o, r :: Holds(rscToDefiners, r, o) <==> Holds(definerToRscs, o, r))
      && NoEmptyBucket(rscToDefiners)
    }

    constructor ()
      ensures Valid() && definerToRscs == map[]
    {
      definerToRscs, rscToDefiners := map[], map[];
    }

    /** The object now defines what is enumerated, repeats allowed. */
    method SetDefiner(oid: Oid, enumeration: seq<Rsc>)
      requires Valid()
      modifies this
      ensures Valid() && definerToRscs == old(definerToRscs)[oid := Elements(enumeration)]
    {
      var olds := Bucket(definerToRscs, oid);
      var news := AddNew(oid, enumeration, olds);
      RemoveOld(oid, olds, news);
      definerToRscs := definerToRscs[oid := news];
    }

    method AddNew(oid: Oid, enumeration: seq<Rsc>, olds: set<Rsc>) returns (news: set<Rsc>)
      requires NoEmptyBucket(rscToDefiners)
      modifies `rscToDefiners
      ensures news == Elements(enumeration) && NoEmptyBucket(rscToDefiners)
      ensures forall r, o :: Holds(rscToDefiners, r, o) <==>
                old(Holds(rscToDefiners, r, o)) || (o == oid && r in news && r !in olds)
    {
      news := {};
      for i := 0 to |enumeration|
        invariant news == Elements(enumeration[..i]) && NoEmptyBucket(rscToDefiners)
        invariant forall r, o ::
                    Holds(rscToDefiners, r, o) <==>
                        old(Holds(rscToDefiners, r, o)) || (o == oid && r in news && r !in olds)
      {
        PrefixElements(enumeration, i);
        var rsc := enumeration[i];
        news := news + {rsc};
        if rsc !in olds {
          rscToDefiners := AddTo(rscToDefiners, rsc, oid);
        }
      }
      assert enumeration[..|enumeration|] == enumeration;
    }

    method RemoveOld(oid: Oid, olds: set<Rsc>, news: set<Rsc>)
      requires NoEmptyBucket(rscToDefiners) && forall r | r in olds :: Holds(rscToDefiners, r, oid)
      modifies `rscToDefiners
      ensures NoEmptyBucket(rscToDefiners)
      ensures forall r, o :: Holds(rscToDefiners, r, o) <==>
                old(Holds(rscToDefiners, r, o)) && !(o == oid && r in olds && r !in news)
    {
      var all := VisitOrder(olds);
      for i := 0 to |all|
        invariant NoEmptyBucket(rscToDefiners)
        invariant forall r, o ::
                    Holds(rscToDefiners, r, o) <==>
                        old(Holds(rscToDefiners, r, o)) && !(o == oid && r in Elements(all[..i]) && r !in news)
      {
        PrefixElements(all, i);
        var rsc := all[i];
        assert rsc in Elements(all);
        if rsc !in news {
          assert Holds(rscToDefiners, rsc, oid);
          OneLess(rscToDefiners, rsc, oid);
          var definers := rscToDefiners[rsc] - {oid};
          if definers == {} {
            rscToDefiners := rscToDefiners - {rsc};
          } else {
            rscToDefiners := rscToDefiners[rsc := definers];
          }
        }
      }
      assert all[..|all|] == all;
    }
  }
}
