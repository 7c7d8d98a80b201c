/**
 Where insertion stops (pkg/jsonpath/eval.go): after a selector that may stand for several places, no member comes
 into being. This is said in terms of the fields of the selectors, for all paths.
 */
module JsonNewPlaces {
  import opened Changes
  import opened JsonPath
  import opened JsonEval
  import opened JsonPlaces
  import opened JsonInsertion

  /** Every child, a double dot, or a range that is not spelled as a single index. */
  predicate Stops(sel: Selector) {
    || sel.EveryChild? || sel.Recurse?
    || (sel.Slice? && (sel.range.afterEnd.None? || sel.range.afterEnd.value != sel.range.start + 1))
    || (sel.Slice? && sel.range.stride != 1)
  }

  /** The constant stands at the place or above it; a container, only `n` steps down. */
  ghost predicate Capped(r: JSON, p: Place, v: JSON, n: int) {
    exists q :: q <= p && CapAt(r, q, v, n)
  }

  predicate CapAt(r: JSON, q: Place, v: JSON, n: int) {
    ValueAt(r, q) == Some(v) && (IsScalar(v) || |q| == n)
  }

  ghost predicate AtOrBelow(r: JSON, p: Place, v: JSON) {
    exists q :: q <= p && ValueAt(r, q) == Some(v)
  }

  lemma CappedIs(r: JSON, p: Place, v: JSON, n: int)
    ensures Capped(r, p, v, n) ==> AtOrBelow(r, p, v)
  {
    hide ValueAt;
  }

  lemma CappedBelow(r: JSON, p: Place, v: JSON, n: int)
    requires p != [] && HasChild(r, p[0]) && Capped(Child(r, p[0]), p[1..], v, n - 1)
    ensures Capped(r, p, v, n)
  {
    var q :| q <= p[1..] && CapAt(Child(r, p[0]), q, v, n - 1);
    assert ([p[0]] + q)[1..] == q;
    assert CapAt(r, [p[0]] + q, v, n);
    assert [p[0]] + q <= p;
  }

  lemma CappedFurther(r: JSON, q: Place, p: Place, v: JSON, n: int)
    requires Capped(r, q, v, n) && q <= p
    ensures Capped(r, p, v, n)
  {
    var q' :| q' <= q && CapAt(r, q', v, n);
    assert q' <= p;
  }

  // ----- Replacement -----

  ghost predicate AllDeep(s: iset<Place>, v: JSON, n: int) {
    IsScalar(v) || forall q | q in s :: |q| == n
  }

  lemma AllDeepBelow(s: iset<Place>, v: JSON, n: int, st: Step)
    requires AllDeep(s, v, n)
    ensures AllDeep(Below(s, st), v, n - 1)
  {
    if !IsScalar(v) {
      forall q | q in Below(s, st)
        ensures |q| == n - 1
      {
        assert [st] + q in s;
      }
    }
  }

  lemma SelectedAllDeep(d: JSON, path: seq<Selector>, v: JSON)
    requires Fits(path, v)
    ensures AllDeep(Sel(d, path), v, |path|)
  {
    if !IsScalar(v) {
      forall q | q in Sel(d, path)
        ensures |q| == |path|
      {
        SelectedDepth(d, path, q);
      }
    }
  }

  /** A place that is new after a replacement is at or below a replaced one. */
  lemma {:induction false} NewAfterReplace(d: JSON, s: iset<Place>, v: JSON, p: Place, n: int)
    requires ValueAt(d, p).None? && ValueAt(Replace(d, s, v), p).Some? && AllDeep(s, v, n)
    ensures Capped(Replace(d, s, v), p, v, n)
    decreases |p|
  {
    hide Replace, Below;
    var r := Replace(d, s, v);
    Replaced(d, s, v);
    if [] in s {
      assert CapAt(r, [], v, n);
    } else {
      SameChildren(d, r);
      AllDeepBelow(s, v, n, p[0]);
      NewAfterReplace(Child(d, p[0]), Below(s, p[0]), v, p[1..], n - 1);
      CappedBelow(r, p, v, n);
    }
  }

  /** Where the constant stands, it or the constant above it stands after a replacement. */
  lemma {:induction false} CapAfterReplace(d: JSON, s: iset<Place>, v: JSON, q: Place, n: int)
    requires CapAt(d, q, v, n) && AllDeep(s, v, n)
    ensures Capped(Replace(d, s, v), q, v, n)
    decreases |q|
  {
    hide Replace, Below;
    var r := Replace(d, s, v);
    Replaced(d, s, v);
    if [] in s {
      assert CapAt(r, [], v, n);
    } else if q == [] {
      if !IsScalar(v) {
        assert s == iset{};
        ReplaceNothing(d, v);
      }
      assert CapAt(r, q, v, n);
    } else {
      SameChildren(d, r);
      AllDeepBelow(s, v, n, q[0]);
      CapAfterReplace(Child(d, q[0]), Below(s, q[0]), v, q[1..], n - 1);
      CappedBelow(r, q, v, n);
    }
  }

  // ----- One definite selector -----

  predicate Single(sel: Selector) {
    sel.Name? || (sel.Slice? && IsDefinite(sel.range))
  }

  /** A child is as before, or the rest of the path has been applied to it; a new one was a null member. */
  lemma SingleChild(d: JSON, path: seq<Selector>, v: JSON, st: Step)
    requires Fits(path, v) && path != [] && Single(path[0])
    ensures var a := Definitely(d, path, v);
            && (HasChild(d, st) ==> HasChild(a, st))
            && (HasChild(a, st) ==>
                  || (HasChild(d, st) && Child(a, st) == Child(d, st))
                  || (HasChild(d, st) && !Stops(path[0]) && Child(a, st) == Definitely(Child(d, st), path[1..], v))
                  || (!HasChild(d, st) && !Stops(path[0]) && Child(a, st) == Definitely(Null, path[1..], v)))
    ensures IsScalar(d) ==> Definitely(d, path, v) == d
  {
    hide Definitely;
    assert [path[0]] + path[1..] == path;
    AppliedToSingle(d, path[0], path[1..], v);
  }

  // ----- Where the constant stands, it stays -----

  lemma {:induction false} CapStays(d: JSON, path: seq<Selector>, v: JSON, q: Place)
    requires Fits(path, v) && CapAt(d, q, v, |path|)
    ensures Capped(Definitely(d, path, v), q, v, |path|)
    decreases Weight(path), 0
  {
    var a := Definitely(d, path, v);
    AppliedToOthers(d, path, true, Const(v));
    if path == [] {
      assert CapAt(a, [], v, 0);
      return;
    }
    assert Weight(path) == WeightOf(path[0]) + Weight(path[1..]);
    if Single(path[0]) {
      if q == [] {
        SingleChild(d, path, v, Key(""));
        assert CapAt(a, [], v, |path|);
      } else {
        CapStaysBelow(d, path, v, q);
      }
    } else if path[0].List? {
      CapStaysByList(d, path[0].list, path[1..], v, q);
    } else {
      NotDefinite(d, path, Const(v));
      ReplacesSelected(d, path, v);
      SelectedAllDeep(d, path, v);
      CapAfterReplace(d, Sel(d, path), v, q, |path|);
    }
  }

  lemma {:induction false} CapStaysBelow(d: JSON, path: seq<Selector>, v: JSON, q: Place)
    requires Fits(path, v) && CapAt(d, q, v, |path|) && path != [] && Single(path[0]) && q != []
    ensures Capped(Definitely(d, path, v), q, v, |path|)
    decreases Weight(path[1..]), 1
  {
    hide Definitely, Single;
    var a, st := Definitely(d, path, v), q[0];
    SingleChild(d, path, v, st);
    if Child(a, st) == Child(d, st) {
      assert CapAt(Child(a, st), q[1..], v, |path| - 1);
    } else {
      CapStays(Child(d, st), path[1..], v, q[1..]);
    }
    CappedBelow(a, q, v, |path|);
  }

  lemma {:induction false} CapStaysByList(d: JSON, l: seq<Selector>, rest: seq<Selector>, v: JSON, q: Place)
    requires Fits(l, v) && Fits(rest, v) && CapAt(d, q, v, 1 + |rest|)
    ensures Capped(ApplyList(d, l, rest, true, Const(v)), q, v, 1 + |rest|)
    decreases Weight(l) + Weight(rest), 1
  {
    hide ApplyList, Apply;
    ListStep(d, l, rest, true, Const(v));
    if l == [] {
      assert CapAt(d, q, v, 1 + |rest|);
    } else {
      WeightOfPath(l[0], rest);
      var path := [l[0]] + rest;
      CapStays(d, path, v, q);
      var d1 := Definitely(d, path, v);
      CappedStaysByList(d1, l[1..], rest, v, q);
    }
  }

  // ----- What is new -----

  lemma {:induction false} NewIsCapped(d: JSON, path: seq<Selector>, v: JSON, i: nat, p: Place)
    requires Fits(path, v) && i < |path| && Stops(path[i])
    requires ValueAt(d, p).None? && ValueAt(Definitely(d, path, v), p).Some?
    ensures |p| <= i || Capped(Definitely(d, path, v), p, v, |path|)
    decreases Weight(path), 0
  {
    AppliedToOthers(d, path, true, Const(v));
    assert Weight(path) == WeightOf(path[0]) + Weight(path[1..]);
    if Single(path[0]) {
      NewBelowSingle(d, path, v, i, p);
    } else if path[0].List? {
      assert path[1..][i - 1] == path[i];
      NewByList(d, path[0].list, path[1..], v, i, p);
    } else {
      NotDefinite(d, path, Const(v));
      ReplacesSelected(d, path, v);
      SelectedAllDeep(d, path, v);
      NewAfterReplace(d, Sel(d, path), v, p, |path|);
    }
  }

  lemma {:induction false} NewBelowSingle(d: JSON, path: seq<Selector>, v: JSON, i: nat, p: Place)
    requires Fits(path, v) && i < |path| && Stops(path[i]) && Single(path[0])
    requires ValueAt(d, p).None? && ValueAt(Definitely(d, path, v), p).Some?
    ensures |p| <= i || Capped(Definitely(d, path, v), p, v, |path|)
    decreases Weight(path[1..]), 1
  {
    hide Definitely, Single;
    var a, st, rest := Definitely(d, path, v), p[0], path[1..];
    SingleChild(d, path, v, st);
    assert !Stops(path[0]) && i > 0 && rest[i - 1] == path[i];
    var c := if HasChild(d, st) then Child(d, st) else Null;
    assert Child(a, st) == Definitely(c, rest, v);
    if |p| > 1 {
      NewIsCapped(c, rest, v, i - 1, p[1..]);
      if |p| > i {
        CappedBelow(a, p, v, |path|);
      }
    }
  }

  lemma {:induction false} NewByList(d: JSON, l: seq<Selector>, rest: seq<Selector>, v: JSON, i: nat, p: Place)
    requires Fits(l, v) && Fits(rest, v) && 0 < i <= |rest| && Stops(rest[i - 1])
    requires ValueAt(d, p).None? && ValueAt(ApplyList(d, l, rest, true, Const(v)), p).Some?
    ensures |p| <= i || Capped(ApplyList(d, l, rest, true, Const(v)), p, v, 1 + |rest|)
    decreases Weight(l) + Weight(rest), 1
  {
    hide ApplyList, Apply, ValueAt, CapAt, Capped, Stops;
    ListStep(d, l, rest, true, Const(v));
    WeightOfPath(l[0], rest);
    var path := [l[0]] + rest;
    var d1 := Definitely(d, path, v);
    if ValueAt(d1, p).None? {
      NewByList(d1, l[1..], rest, v, i, p);
    } else {
      NewIsCapped(d, path, v, i, p);
      if |p| > i {
        CappedStaysByList(d1, l[1..], rest, v, p);
      }
    }
  }

  lemma CappedStaysByList(d: JSON, l: seq<Selector>, rest: seq<Selector>, v: JSON, p: Place)
    requires Fits(l, v) && Fits(rest, v) && Capped(d, p, v, 1 + |rest|)
    ensures Capped(ApplyList(d, l, rest, true, Const(v)), p, v, 1 + |rest|)
    decreases Weight(l) + Weight(rest), 2
  {
    hide ApplyList, CapAt;
    var q :| q <= p && CapAt(d, q, v, 1 + |rest|);
    CapStaysByList(d, l, rest, v, q);
    CappedFurther(ApplyList(d, l, rest, true, Const(v)), q, p, v, 1 + |rest|);
  }

  /**
   After a star, a double dot, or a range that is not a single index, no member comes into being: a place that
   is new is no further down than the selectors before lead, or the constant stands there or above.
   */
  lemma InsertionStops(d: JSON, path: seq<Selector>, v: JSON, i: nat, p: Place)
    requires Fits(path, v) && i < |path|
    requires match path[i]
             case EveryChild => true
             case Recurse => true
             case Slice(r) => r.afterEnd.None? || r.afterEnd.value != r.start + 1 || r.stride != 1
             case _ => false
    requires ValueAt(d, p).None? && ValueAt(Definitely(d, path, v), p).Some?
    ensures |p| <= i || AtOrBelow(Definitely(d, path, v), p, v)
  {
    hide Definitely;
    NewIsCapped(d, path, v, i, p);
    CappedIs(Definitely(d, path, v), p, v, |path|);
  }
}
