/**
 When the evaluator gets to an end (pkg/jsonpath/eval.go): the exact condition, in terms of the data and
 the path as they are before the call. The evaluator comes to an array with a range to go over it unless
 something at or above the array was replaced before.
 */
module JsonCompletion {
  import opened Changes
  import opened JsonPath
  import opened JsonEval
  import opened JsonPlaces

  // ----- Where the ranges are met -----

  /** The length of the array at a place, if there is one. */
  function ArrayAt(d: JSON, p: Place): Option<nat> {
    if p == [] then (if d.Arr? then Some(|d.elts|) else None)
    else if HasChild(d, p[0]) then ArrayAt(Child(d, p[0]), p[1..]) else None
  }

  /** The place is one of these, or below one of them. */
  ghost predicate Stopped(s: iset<Place>, p: Place) {
    exists q :: q in s && q <= p
  }

  /** The path leads to an array at the place, with this range to go over it, and nothing is replaced there before. */
  ghost predicate Visits(d: JSON, path: seq<Selector>, p: Place, r: Range)
    decreases |p|, Weight(path), 0
  {
    path != [] &&
    (assert Weight(path) == WeightOf(path[0]) + Weight(path[1..]);
    match path[0]
    case List(l) => VisitsByList(d, l, path[1..], p, r)
    case Recurse =>
      || Visits(d, path[1..], p, r)
      || (!Stopped(Sel(d, path[1..]), p) && p != [] && HasChild(d, p[0]) && Visits(Child(d, p[0]), path, p[1..], r))
    case _ =>
      || (path[0] == Slice(r) && p == [] && d.Arr?)
      || (p != [] && Picks(path[0], d, p[0]) && Visits(Child(d, p[0]), path[1..], p[1..], r)))
  }

  /** Some member of the list does, and no member before it replaces anything at or above the place. */
  ghost predicate VisitsByList(d: JSON, l: seq<Selector>, rest: seq<Selector>, p: Place, r: Range)
    decreases |p|, Weight(l) + Weight(rest), 1
  {
    l != [] &&
    (WeightOfPath(l[0], rest);
    || Visits(d, [l[0]] + rest, p, r)
    || (!Stopped(Sel(d, [l[0]] + rest), p) && VisitsByList(d, l[1..], rest, p, r)))
  }

  ghost predicate VisitsBelow(d: JSON, path: seq<Selector>, p: Place, r: Range) {
    p != [] && HasChild(d, p[0]) && Visits(Child(d, p[0]), path, p[1..], r)
  }

  lemma VisitsIs(d: JSON, path: seq<Selector>, p: Place, r: Range)
    requires path != []
    ensures path[0].List? ==> (Visits(d, path, p, r) <==> VisitsByList(d, path[0].list, path[1..], p, r))
    ensures path[0].Recurse? ==>
              (Visits(d, path, p, r) <==>
               Visits(d, path[1..], p, r) || (!Stopped(Sel(d, path[1..]), p) && VisitsBelow(d, path, p, r)))
    ensures !path[0].List? && !path[0].Recurse? ==>
              (Visits(d, path, p, r) <==>
               || (path[0] == Slice(r) && p == [] && d.Arr?)
               || (VisitsBelow(d, path[1..], p, r) && Picks(path[0], d, p[0])))
  {
    hide VisitsByList, Stopped, Sel;
  }

  lemma VisitsByListIs(d: JSON, l: seq<Selector>, rest: seq<Selector>, p: Place, r: Range)
    ensures l == [] ==> !VisitsByList(d, l, rest, p, r)
    ensures l != [] ==>
              (VisitsByList(d, l, rest, p, r) <==>
               || Visits(d, [l[0]] + rest, p, r)
               || (!Stopped(Sel(d, [l[0]] + rest), p) && VisitsByList(d, l[1..], rest, p, r)))
  {
    hide Visits, Stopped, Sel;
  }

  ghost predicate Fine(d: JSON, p: Place, r: Range) {
    ArrayAt(d, p).Some? ==> RangeCompletes(r, ArrayAt(d, p).value)
  }

  /** Every range completes on every array that the path leads to with it. */
  ghost predicate Smooth(d: JSON, path: seq<Selector>) {
    forall p, r | Visits(d, path, p, r) :: Fine(d, p, r)
  }

  ghost predicate SmoothList(d: JSON, l: seq<Selector>, rest: seq<Selector>) {
    forall p, r | VisitsByList(d, l, rest, p, r) :: Fine(d, p, r)
  }

  ghost predicate SmoothBelow(d: JSON, path: seq<Selector>) {
    forall p, r | VisitsBelow(d, path, p, r) :: Fine(d, p, r)
  }

  // ----- What is met after a replacement -----

  lemma StoppedStep(s: iset<Place>, st: Step, p: Place)
    ensures Stopped(s, [st] + p) <==> [] in s || Stopped(Below(s, st), p)
  {
    var q := [st] + p;
    if Stopped(s, q) && [] !in s {
      var x :| x in s && x <= q;
      assert x == [st] + x[1..] && x[1..] <= p;
      assert x[1..] in Below(s, st);
    }
    if Stopped(Below(s, st), p) {
      var x :| x in Below(s, st) && x <= p;
      assert [st] + x in s && [st] + x <= q;
    }
    if [] in s {
      assert [] <= q;
    }
  }

  lemma StoppedAtRoot(s: iset<Place>)
    ensures Stopped(s, []) <==> [] in s
  {
    if Stopped(s, []) {
      var x :| x in s && x <= [];
      assert x == [];
    }
    if [] in s {
      var root: Place := [];
      assert root in s && root <= root;
    }
  }

  lemma UnderStops(s: iset<Place>, q: Place, p: Place)
    ensures Under(s, q) && q <= p ==> Stopped(s, p)
  {
    if Under(s, q) && q <= p {
      var n :| 0 <= n < |q| && q[..n] in s;
      assert q[..n] <= p;
    }
  }

  /** A replacement elsewhere does not change whether a path stops above a place. */
  lemma StoppedAfterReplace(d: JSON, s: iset<Place>, path: seq<Selector>, p: Place)
    requires !Stopped(s, p)
    ensures Stopped(Sel(Replace(d, s, Null), path), p) <==> Stopped(Sel(d, path), p)
  {
    hide Selected, Replace;
    forall q: Place | q <= p
      ensures q in Sel(Replace(d, s, Null), path) <==> q in Sel(d, path)
    {
      UnderStops(s, q, p);
      SelectedAfterReplace(d, s, Null, path, q);
    }
  }

  lemma {:induction false} ArrayAfterReplace(d: JSON, s: iset<Place>, p: Place)
    requires !Stopped(s, p)
    ensures ArrayAt(Replace(d, s, Null), p) == ArrayAt(d, p)
    decreases |p|
  {
    hide Replace, Stopped;
    Replaced(d, s, Null);
    if p == [] {
      StoppedAtRoot(s);
    } else {
      assert p == [p[0]] + p[1..];
      StoppedStep(s, p[0], p[1..]);
      SameChildren(d, Replace(d, s, Null));
      if HasChild(d, p[0]) {
        ArrayAfterReplace(Child(d, p[0]), Below(s, p[0]), p[1..]);
      }
    }
  }

  lemma {:induction false} VisitsAfterReplace(d: JSON, s: iset<Place>, path: seq<Selector>, p: Place, r: Range)
    ensures Visits(Replace(d, s, Null), path, p, r) <==> Visits(d, path, p, r) && !Stopped(s, p)
    decreases |p|, Weight(path), 0
  {
    hide Visits, VisitsByList, VisitsBelow, Replace, Stopped, Sel;
    if path == [] {
      NothingVisited(d, p, r);
      NothingVisited(Replace(d, s, Null), p, r);
      return;
    }
    assert Weight(path) == WeightOf(path[0]) + Weight(path[1..]);
    VisitsIs(d, path, p, r);
    VisitsIs(Replace(d, s, Null), path, p, r);
    if path[0].List? {
      VisitsByListAfterReplace(d, s, path[0].list, path[1..], p, r);
    } else if path[0].Recurse? {
      VisitsAfterReplace(d, s, path[1..], p, r);
      VisitsBelowAfterReplace(d, s, path, p, r);
      if !Stopped(s, p) {
        StoppedAfterReplace(d, s, path[1..], p);
      }
    } else {
      VisitsBelowAfterReplace(d, s, path[1..], p, r);
      RootAndChildren(d, s, path[1..], p, r);
    }
  }

  lemma NothingVisited(d: JSON, p: Place, r: Range)
    ensures !Visits(d, [], p, r)
  {
  }

  lemma RootAndChildren(d: JSON, s: iset<Place>, path: seq<Selector>, p: Place, r: Range)
    ensures p == [] ==> (Replace(d, s, Null).Arr? <==> d.Arr? && !Stopped(s, p))
    ensures VisitsBelow(d, path, p, r) || VisitsBelow(Replace(d, s, Null), path, p, r) ==> p != []
    ensures p != [] && !Stopped(s, p) ==>
              forall sel :: Picks(sel, Replace(d, s, Null), p[0]) <==> Picks(sel, d, p[0])
  {
    hide Visits, Stopped, Replace;
    Replaced(d, s, Null);
    StoppedAtRoot(s);
    if p != [] && !Stopped(s, p) {
      assert p == [p[0]] + p[1..];
      StoppedStep(s, p[0], p[1..]);
      SameChildren(d, Replace(d, s, Null));
    }
  }

  lemma {:induction false} VisitsBelowAfterReplace(d: JSON, s: iset<Place>, path: seq<Selector>, p: Place, r: Range)
    ensures VisitsBelow(Replace(d, s, Null), path, p, r) <==> VisitsBelow(d, path, p, r) && !Stopped(s, p)
    decreases |p|, 0, 0
  {
    hide Visits, Stopped, Replace;
    Replaced(d, s, Null);
    if p != [] {
      assert p == [p[0]] + p[1..];
      StoppedStep(s, p[0], p[1..]);
      if [] !in s {
        SameChildren(d, Replace(d, s, Null));
        if HasChild(d, p[0]) {
          VisitsAfterReplace(Child(d, p[0]), Below(s, p[0]), path, p[1..], r);
        }
      }
    }
  }

  lemma {:induction false} VisitsByListAfterReplace(d: JSON, s: iset<Place>, l: seq<Selector>, rest: seq<Selector>,
                                                    p: Place, r: Range)
    ensures VisitsByList(Replace(d, s, Null), l, rest, p, r) <==> VisitsByList(d, l, rest, p, r) && !Stopped(s, p)
    decreases |p|, Weight(l) + Weight(rest), 1
  {
    hide Visits, VisitsByList, Stopped, Sel, Replace;
    VisitsByListIs(d, l, rest, p, r);
    VisitsByListIs(Replace(d, s, Null), l, rest, p, r);
    if l != [] {
      WeightOfPath(l[0], rest);
      VisitsAfterReplace(d, s, [l[0]] + rest, p, r);
      VisitsByListAfterReplace(d, s, l[1..], rest, p, r);
      if !Stopped(s, p) {
        StoppedAfterReplace(d, s, [l[0]] + rest, p);
      }
    }
  }

  // ----- The condition is exact for a constant, without insertion -----

  ghost predicate PlainCompletes(d: JSON, path: seq<Selector>) {
    Completes(d, path, false, Const(Null))
  }

  lemma {:induction false} PlainCompletesIff(d: JSON, path: seq<Selector>)
    ensures PlainCompletes(d, path) <==> Smooth(d, path)
    decreases Height(d), Weight(path), 0
  {
    hide Completes, CompletesList, CompletesBelow, Visits, VisitsByList, VisitsBelow, Height, Apply, Fine;
    CompletesIs(d, path, false, Const(Null));
    if path == [] {
      forall p, r { NothingVisited(d, p, r); }
      return;
    }
    assert Weight(path) == WeightOf(path[0]) + Weight(path[1..]);
    if path[0].List? {
      ListCompletesIff(d, path[0].list, path[1..]);
      forall p, r { VisitsIs(d, path, p, r); }
    } else if path[0].Recurse? {
      PlainCompletesIff(d, path[1..]);
      DotsCompleteIff(d, path);
    } else {
      OneLevelCompletesIff(d, path);
    }
  }

  lemma {:induction false} ListCompletesIff(d: JSON, l: seq<Selector>, rest: seq<Selector>)
    ensures CompletesList(d, l, rest, false, Const(Null)) <==> SmoothList(d, l, rest)
    decreases Height(d), Weight(l) + Weight(rest), 1
  {
    hide Completes, CompletesList, Visits, VisitsByList, Height, Apply, Fine, Sel, Replace;
    CompletesListStep(d, l, rest, false, Const(Null));
    forall p, r { VisitsByListIs(d, l, rest, p, r); }
    if l != [] {
      WeightOfPath(l[0], rest);
      var path := [l[0]] + rest;
      PlainCompletesIff(d, path);
      ReplacesSelected(d, path, Null);
      var s := Sel(d, path);
      ReplaceLower(d, path);
      ListCompletesIff(Replace(d, s, Null), l[1..], rest);
      SmoothListAfter(d, s, l[1..], rest);
    }
  }

  lemma ReplaceLower(d: JSON, path: seq<Selector>)
    ensures Height(Replace(d, Sel(d, path), Null)) <= Height(d)
  {
    hide Apply, Height, Sel, Replace;
    ReplacesSelected(d, path, Null);
    assert ScalarValued(Const(Null));
    assert Height(Apply(d, path, false, Const(Null))) <= Height(d);
  }

  lemma SmoothListAfter(d: JSON, s: iset<Place>, l: seq<Selector>, rest: seq<Selector>)
    ensures SmoothList(Replace(d, s, Null), l, rest) <==>
            forall p, r | VisitsByList(d, l, rest, p, r) && !Stopped(s, p) :: Fine(d, p, r)
  {
    hide VisitsByList, Stopped, Replace, ArrayAt;
    forall p, r
      ensures VisitsByList(Replace(d, s, Null), l, rest, p, r) <==> VisitsByList(d, l, rest, p, r) && !Stopped(s, p)
      ensures !Stopped(s, p) ==> (Fine(Replace(d, s, Null), p, r) <==> Fine(d, p, r))
    {
      VisitsByListAfterReplace(d, s, l, rest, p, r);
      if !Stopped(s, p) {
        ArrayAfterReplace(d, s, p);
      }
    }
  }

  lemma SmoothBelowAfter(d: JSON, s: iset<Place>, path: seq<Selector>)
    ensures SmoothBelow(Replace(d, s, Null), path) <==>
            forall p, r | VisitsBelow(d, path, p, r) && !Stopped(s, p) :: Fine(d, p, r)
  {
    hide VisitsBelow, Stopped, Replace, ArrayAt;
    forall p, r
      ensures VisitsBelow(Replace(d, s, Null), path, p, r) <==> VisitsBelow(d, path, p, r) && !Stopped(s, p)
      ensures !Stopped(s, p) ==> (Fine(Replace(d, s, Null), p, r) <==> Fine(d, p, r))
    {
      VisitsBelowAfterReplace(d, s, path, p, r);
      if !Stopped(s, p) {
        ArrayAfterReplace(d, s, p);
      }
    }
  }

  lemma FineBelow(d: JSON, p: Place, r: Range)
    requires p != [] && HasChild(d, p[0])
    ensures Fine(d, p, r) <==> Fine(Child(d, p[0]), p[1..], r)
  {
    hide RangeCompletes;
  }

  /** The children, each by itself. */
  lemma {:induction false} ChildrenCompleteIff(d: JSON, path: seq<Selector>)
    ensures CompletesBelow(d, path, Const(Null)) <==> SmoothBelow(d, path)
    decreases Height(d), 0, 1
  {
    hide Completes, Visits, Height, Fine;
    forall st | HasChild(d, st)
      ensures PlainCompletes(Child(d, st), path) <==> Smooth(Child(d, st), path)
    {
      ChildLower(d, st);
      PlainCompletesIff(Child(d, st), path);
    }
    CompletesBelowIs(d, path);
    SmoothBelowIs(d, path);
  }

  lemma CompletesBelowIs(d: JSON, path: seq<Selector>)
    ensures CompletesBelow(d, path, Const(Null)) <==>
            forall st | HasChild(d, st) :: PlainCompletes(Child(d, st), path)
  {
    hide Completes, Height;
    if CompletesBelow(d, path, Const(Null)) {
      forall st | HasChild(d, st)
        ensures PlainCompletes(Child(d, st), path)
      {
      }
    } else {
      match d {
        case Arr(elts) =>
          var i :| 0 <= i < |elts| && !Completes(elts[i], path, false, Const(Null));
          assert HasChild(d, Index(i)) && !PlainCompletes(Child(d, Index(i)), path);
        case Obj(members) =>
          var k :| k in members && !Completes(members[k], path, false, Const(Null));
          assert HasChild(d, Key(k)) && !PlainCompletes(Child(d, Key(k)), path);
        case _ =>
      }
    }
  }

  lemma SmoothBelowIs(d: JSON, path: seq<Selector>)
    ensures SmoothBelow(d, path) <==> forall st | HasChild(d, st) :: Smooth(Child(d, st), path)
  {
    hide Visits, Fine;
    if SmoothBelow(d, path) {
      forall st, q, r | HasChild(d, st) && Visits(Child(d, st), path, q, r)
        ensures Fine(Child(d, st), q, r)
      {
        var p := [st] + q;
        assert p[0] == st && p[1..] == q;
        assert VisitsBelow(d, path, p, r);
        FineBelow(d, p, r);
      }
    }
    if forall st | HasChild(d, st) :: Smooth(Child(d, st), path) {
      forall p, r | VisitsBelow(d, path, p, r)
        ensures Fine(d, p, r)
      {
        FineBelow(d, p, r);
        assert Smooth(Child(d, p[0]), path);
      }
    }
  }

  lemma {:induction false} DotsCompleteIff(d: JSON, path: seq<Selector>)
    requires path != [] && path[0].Recurse? && (PlainCompletes(d, path[1..]) <==> Smooth(d, path[1..]))
    ensures PlainCompletes(d, path) <==> Smooth(d, path)
    decreases Height(d), 0, 2
  {
    hide Completes, CompletesBelow, Visits, VisitsBelow, Height, Apply, Fine, Sel, Replace, Stopped;
    CompletesIs(d, path, false, Const(Null));
    ReplacesSelected(d, path[1..], Null);
    var s := Sel(d, path[1..]);
    ReplaceLower(d, path[1..]);
    ChildrenCompleteIff(Replace(d, s, Null), path);
    SmoothBelowAfter(d, s, path);
    forall p, r { VisitsIs(d, path, p, r); }
  }

  lemma {:induction false} OneLevelCompletesIff(d: JSON, path: seq<Selector>)
    requires path != [] && !path[0].List? && !path[0].Recurse?
    ensures PlainCompletes(d, path) <==> Smooth(d, path)
    decreases Height(d), 0, 2
  {
    hide Completes, Visits, VisitsBelow, Height, Fine, Picks;
    forall st | HasChild(d, st)
      ensures PlainCompletes(Child(d, st), path[1..]) <==> Smooth(Child(d, st), path[1..])
    {
      ChildLower(d, st);
      PlainCompletesIff(Child(d, st), path[1..]);
    }
    OneLevelCompletes(d, path);
    OneLevelSmooth(d, path);
  }

  /** The range at hand, if any, completes, and so do the children that the selector picks. */
  lemma OneLevelCompletes(d: JSON, path: seq<Selector>)
    requires path != [] && !path[0].List? && !path[0].Recurse?
    ensures PlainCompletes(d, path) <==>
            && (path[0].Slice? && d.Arr? ==> RangeCompletes(path[0].range, |d.elts|))
            && forall st | HasChild(d, st) && Picks(path[0], d, st) :: PlainCompletes(Child(d, st), path[1..])
  {
    hide Height, Apply, RangeCompletes, CompletesList;
    CompletesIs(d, path, false, Const(Null));
    match path[0] {
      case Name(name) =>
        if d.Obj? && name in d.members {
          assert HasChild(d, Key(name)) && Picks(path[0], d, Key(name));
        }
      case EveryChild =>
        CompletesBelowIs(d, path[1..]);
      case Slice(range) =>
        if d.Arr? {
          forall i | 0 <= i < |d.elts| && Covers(range, |d.elts|, i)
            ensures HasChild(d, Index(i)) && Picks(path[0], d, Index(i))
          {
          }
          SliceCompletes(d, path);
        }
    }
  }

  lemma SliceCompletes(d: JSON, path: seq<Selector>)
    requires path != [] && path[0].Slice? && d.Arr?
    ensures PlainCompletes(d, path) <==>
            && RangeCompletes(path[0].range, |d.elts|)
            && forall st | HasChild(d, st) && Picks(path[0], d, st) :: PlainCompletes(Child(d, st), path[1..])
  {
    hide Height, Apply, RangeCompletes, Covers;
    var range := path[0].range;
    assert PlainCompletes(d, path) <==>
           && RangeCompletes(range, |d.elts|)
           && forall i | 0 <= i < |d.elts| && Covers(range, |d.elts|, i) ::
                Completes(d.elts[i], path[1..], false, Const(Null));
    forall i | 0 <= i < |d.elts| && Covers(range, |d.elts|, i)
      ensures HasChild(d, Index(i)) && Picks(path[0], d, Index(i)) && Child(d, Index(i)) == d.elts[i]
    {
    }
  }

  lemma OneLevelSmooth(d: JSON, path: seq<Selector>)
    requires path != [] && !path[0].List? && !path[0].Recurse?
    ensures Smooth(d, path) <==>
            && (path[0].Slice? && d.Arr? ==> RangeCompletes(path[0].range, |d.elts|))
            && forall st | HasChild(d, st) && Picks(path[0], d, st) :: Smooth(Child(d, st), path[1..])
  {
    hide Visits, Picks, RangeCompletes;
    forall p, r { VisitsIs(d, path, p, r); }
    if Smooth(d, path) {
      if path[0].Slice? && d.Arr? {
        assert Visits(d, path, [], path[0].range);
        assert Fine(d, [], path[0].range);
      }
      forall st, q, r | HasChild(d, st) && Picks(path[0], d, st) && Visits(Child(d, st), path[1..], q, r)
        ensures Fine(Child(d, st), q, r)
      {
        var p := [st] + q;
        assert p[0] == st && p[1..] == q;
        assert VisitsBelow(d, path[1..], p, r);
        FineBelow(d, p, r);
      }
    }
    if && (path[0].Slice? && d.Arr? ==> RangeCompletes(path[0].range, |d.elts|))
       && forall st | HasChild(d, st) && Picks(path[0], d, st) :: Smooth(Child(d, st), path[1..])
    {
      forall p, r | Visits(d, path, p, r)
        ensures Fine(d, p, r)
      {
        if VisitsBelow(d, path[1..], p, r) && Picks(path[0], d, p[0]) {
          FineBelow(d, p, r);
          assert Smooth(Child(d, p[0]), path[1..]);
        }
      }
    }
  }

  // ----- Any function, and insertion -----

  /**
   The containers are the same down to a depth, or all the way down if that is negative, but for members
   that came in, which are no containers.
   */
  ghost predicate Like(d: JSON, d': JSON, depth: int)
    decreases d
  {
    depth == 0 ||
    match d
    case Arr(elts) =>
      d'.Arr? && |d'.elts| == |elts| && forall i | 0 <= i < |elts| :: Like(elts[i], d'.elts[i], depth - 1)
    case Obj(members) =>
      && d'.Obj? && (forall k | k in members :: k in d'.members && Like(members[k], d'.members[k], depth - 1))
      && forall k | k in d'.members && k !in members :: Bare(d'.members[k], depth - 1)
    case _ => IsScalar(d')
  }

  predicate Bare(d: JSON, depth: int) {
    depth == 0 || IsScalar(d)
  }

  lemma {:induction false} LikeItself(d: JSON, depth: int)
    ensures Like(d, d, depth)
    decreases d
  {
    match d {
      case Arr(elts) =>
        forall i | 0 <= i < |elts| { LikeItself(elts[i], depth - 1); }
      case Obj(members) =>
        forall k | k in members { LikeItself(members[k], depth - 1); }
      case _ =>
    }
  }

  /** The function makes no containers, or the path ends where they would be. */
  ghost predicate Suits(path: seq<Selector>, fn: JSON -> JSON, depth: int) {
    (depth < 0 && ScalarValued(fn)) || (depth == |path| && Shallow(path))
  }

  ghost predicate SuitsList(l: seq<Selector>, rest: seq<Selector>, fn: JSON -> JSON, depth: int) {
    (depth < 0 && ScalarValued(fn)) || (depth == 1 + |rest| && Shallow(l) && Shallow(rest))
  }

  // ----- Nothing happens to a scalar -----

  lemma {:induction false} BareStays(d: JSON, path: seq<Selector>, definite: bool, fn: JSON -> JSON, depth: int)
    requires Suits(path, fn, depth) && Bare(d, depth)
    ensures Completes(d, path, definite, fn) && Bare(Apply(d, path, definite, fn), depth)
    decreases Descent(d, Shallow(path)), Weight(path), 0
  {
    hide Completes, CompletesList, CompletesBelow, Apply, ApplyList, ApplyToChildren, Height;
    CompletesIs(d, path, definite, fn);
    AppliedToOthers(d, path, definite, fn);
    if path != [] {
      assert Weight(path) == WeightOf(path[0]) + Weight(path[1..]);
      match path[0] {
        case Name(_) => AppliedToName(d, path, definite, fn);
        case Slice(_) =>
        case List(l) => BareListStays(d, l, path[1..], definite, fn, depth);
        case EveryChild => NoChildren(d, path[1..], fn);
        case Recurse =>
          BareStays(d, path[1..], false, fn, depth);
          NoChildren(Apply(d, path[1..], false, fn), path, fn);
      }
    }
  }

  lemma NoChildren(d: JSON, path: seq<Selector>, fn: JSON -> JSON)
    requires Grounded(path, fn) && IsScalar(d)
    ensures CompletesBelow(d, path, fn) && ApplyToChildren(d, path, fn) == d
  {
    hide Completes, Apply, Height;
  }

  lemma {:induction false} BareListStays(d: JSON, l: seq<Selector>, rest: seq<Selector>, definite: bool,
                                         fn: JSON -> JSON, depth: int)
    requires IsScalar(d) && SuitsList(l, rest, fn, depth)
    ensures CompletesList(d, l, rest, definite, fn) && IsScalar(ApplyList(d, l, rest, definite, fn))
    decreases Descent(d, Shallow(l) && Shallow(rest)), Weight(l) + Weight(rest), 1
  {
    hide Completes, CompletesList, Apply, ApplyList, Height;
    CompletesListStep(d, l, rest, definite, fn);
    ListStep(d, l, rest, definite, fn);
    if l != [] {
      WeightOfPath(l[0], rest);
      BareStays(d, [l[0]] + rest, definite, fn, depth);
      var d1 := Apply(d, [l[0]] + rest, definite, fn);
      ScalarIsFlat(d, d1);
      BareListStays(d1, l[1..], rest, definite, fn, depth);
    }
  }

  lemma ScalarIsFlat(d: JSON, d1: JSON)
    ensures IsScalar(d) && IsScalar(d1) ==> Height(d) == Height(d1)
  {
    ChildIsLower(d);
    ChildIsLower(d1);
  }

  // ----- Where the containers are the same, the same happens -----

  lemma {:induction false} AppliedLike(d: JSON, d': JSON, path: seq<Selector>, definite: bool, fn: JSON -> JSON,
                                       fn': JSON -> JSON, depth: int)
    requires Like(d, d', depth) && Suits(path, fn, depth) && Suits(path, fn', depth)
    ensures Like(Apply(d, path, false, fn), Apply(d', path, definite, fn'), depth)
    ensures Completes(d, path, false, fn) <==> Completes(d', path, definite, fn')
    decreases Descent(d, Shallow(path)), Weight(path), 0
  {
    hide Completes, CompletesList, CompletesBelow, Apply, ApplyList, ApplyToChildren, Height, Like;
    CompletesIs(d, path, false, fn);
    CompletesIs(d', path, definite, fn');
    AppliedToOthers(d, path, false, fn);
    AppliedToOthers(d', path, definite, fn');
    if path == [] {
      ScalarsAlike(fn(d), fn'(d'), depth);
      return;
    }
    assert Weight(path) == WeightOf(path[0]) + Weight(path[1..]);
    match path[0] {
      case Name(_) => NameLike(d, d', path, definite, fn, fn', depth);
      case Slice(_) => SliceLike(d, d', path, definite, fn, fn', depth);
      case List(l) => ListLike(d, d', l, path[1..], definite, fn, fn', depth);
      case EveryChild => ChildrenLike(d, d', path[1..], fn, fn', depth);
      case Recurse =>
        AppliedLike(d, d', path[1..], false, fn, fn', depth);
        ChildrenLike(Apply(d, path[1..], false, fn), Apply(d', path[1..], false, fn'), path, fn, fn', depth);
    }
  }

  lemma ScalarsAlike(d: JSON, d': JSON, depth: int)
    ensures depth == 0 || (IsScalar(d) && IsScalar(d')) ==> Like(d, d', depth)
  {
  }

  lemma MemberLike(d: JSON, d': JSON, name: string, depth: int)
    requires Like(d, d', depth) && depth != 0
    ensures d.Obj? <==> d'.Obj?
    ensures d.Obj? && name in d.members ==>
              name in d'.members && Like(d.members[name], d'.members[name], depth - 1)
    ensures d.Obj? && name !in d.members ==> Bare(Member(d', name), depth - 1)
  {
  }

  lemma LikeWithMember(ms: map<string, JSON>, ms': map<string, JSON>, name: string, v: JSON, v': JSON, depth: int)
    requires Like(Obj(ms), Obj(ms'), depth) && name in ms && Like(v, v', depth - 1)
    ensures Like(Obj(ms[name := v]), Obj(ms'[name := v']), depth)
  {
  }

  lemma LikeWithNew(ms: map<string, JSON>, ms': map<string, JSON>, name: string, v': JSON, depth: int)
    requires Like(Obj(ms), Obj(ms'), depth) && name !in ms && Bare(v', depth - 1)
    ensures Like(Obj(ms), Obj(ms'[name := v']), depth)
  {
  }

  lemma {:induction false} NameLike(d: JSON, d': JSON, path: seq<Selector>, definite: bool, fn: JSON -> JSON,
                                    fn': JSON -> JSON, depth: int)
    requires Like(d, d', depth) && Suits(path, fn, depth) && Suits(path, fn', depth) && path != [] && path[0].Name?
    ensures Like(Apply(d, path, false, fn), Apply(d', path, definite, fn'), depth)
    ensures Completes(d, path, false, fn) <==> Completes(d', path, definite, fn')
    decreases Descent(d, Shallow(path)), Weight(path[1..]), 1
  {
    hide Completes, Apply, Height, Like;
    CompletesIs(d, path, false, fn);
    CompletesIs(d', path, definite, fn');
    AppliedToName(d, path, false, fn);
    AppliedToName(d', path, definite, fn');
    var name, rest := path[0].name, path[1..];
    MemberLike(d, d', name, depth);
    if d.Obj? {
      if name in d.members {
        ChildIsLower(d);
        AppliedLike(d.members[name], d'.members[name], rest, definite, fn, fn', depth - 1);
        LikeWithMember(d.members, d'.members, name, Apply(d.members[name], rest, false, fn),
                       Apply(d'.members[name], rest, definite, fn'), depth);
      } else {
        BareStays(Member(d', name), rest, definite, fn', depth - 1);
        LikeWithNew(d.members, d'.members, name, Apply(Member(d', name), rest, definite, fn'), depth);
      }
    }
  }

  /** What a range makes of an array, and whether it gets there. */
  lemma SliceApplies(d: JSON, path: seq<Selector>, definite: bool, fn: JSON -> JSON)
    requires Grounded(path, fn) && path != [] && path[0].Slice? && d.Arr?
    ensures var range, below := path[0].range, definite && IsDefinite(path[0].range);
            var a := Apply(d, path, definite, fn);
            && a.Arr? && |a.elts| == |d.elts|
            && forall i | 0 <= i < |d.elts| ::
                 a.elts[i] == if Covers(range, |d.elts|, i) then Apply(d.elts[i], path[1..], below, fn) else d.elts[i]
    ensures var range, below := path[0].range, definite && IsDefinite(path[0].range);
            Completes(d, path, definite, fn) <==>
            && RangeCompletes(range, |d.elts|)
            && forall i | 0 <= i < |d.elts| && Covers(range, |d.elts|, i) ::
                 Completes(d.elts[i], path[1..], below, fn)
  {
    hide Height, RangeCompletes, Covers;
  }

  lemma {:induction false} SliceLike(d: JSON, d': JSON, path: seq<Selector>, definite: bool, fn: JSON -> JSON,
                                     fn': JSON -> JSON, depth: int)
    requires Like(d, d', depth) && Suits(path, fn, depth) && Suits(path, fn', depth) && path != [] && path[0].Slice?
    ensures Like(Apply(d, path, false, fn), Apply(d', path, definite, fn'), depth)
    ensures Completes(d, path, false, fn) <==> Completes(d', path, definite, fn')
    decreases Descent(d, Shallow(path)), Weight(path[1..]), 1
  {
    hide Completes, Apply, Height, Covers, RangeCompletes;
    AppliedToOthers(d, path, false, fn);
    AppliedToOthers(d', path, definite, fn');
    CompletesIs(d, path, false, fn);
    CompletesIs(d', path, definite, fn');
    if d.Arr? {
      SliceApplies(d, path, false, fn);
      SliceApplies(d', path, definite, fn');
      ChildIsLower(d);
      var rest, below := path[1..], definite && IsDefinite(path[0].range);
      forall i | 0 <= i < |d.elts|
        ensures Like(Apply(d.elts[i], rest, false, fn), Apply(d'.elts[i], rest, below, fn'), depth - 1)
        ensures Completes(d.elts[i], rest, false, fn) <==> Completes(d'.elts[i], rest, below, fn')
      {
        AppliedLike(d.elts[i], d'.elts[i], rest, below, fn, fn', depth - 1);
      }
    }
  }

  lemma {:induction false} ListLike(d: JSON, d': JSON, l: seq<Selector>, rest: seq<Selector>, definite: bool,
                                    fn: JSON -> JSON, fn': JSON -> JSON, depth: int)
    requires Like(d, d', depth) && SuitsList(l, rest, fn, depth) && SuitsList(l, rest, fn', depth)
    ensures Like(ApplyList(d, l, rest, false, fn), ApplyList(d', l, rest, definite, fn'), depth)
    ensures CompletesList(d, l, rest, false, fn) <==> CompletesList(d', l, rest, definite, fn')
    decreases Descent(d, Shallow(l) && Shallow(rest)), Weight(l) + Weight(rest), 1
  {
    hide Completes, CompletesList, Apply, ApplyList, Height, Like;
    CompletesListStep(d, l, rest, false, fn);
    CompletesListStep(d', l, rest, definite, fn');
    ListStep(d, l, rest, false, fn);
    ListStep(d', l, rest, definite, fn');
    if l != [] {
      WeightOfPath(l[0], rest);
      var path := [l[0]] + rest;
      AppliedLike(d, d', path, definite, fn, fn', depth);
      ListLike(Apply(d, path, false, fn), Apply(d', path, definite, fn'), l[1..], rest, definite, fn, fn', depth);
    }
  }

  lemma {:induction false} ChildrenLike(d: JSON, d': JSON, path: seq<Selector>, fn: JSON -> JSON, fn': JSON -> JSON,
                                        depth: int)
    requires depth != 0 && Like(d, d', depth) && Suits(path, fn, depth - 1) && Suits(path, fn', depth - 1)
    ensures Like(ApplyToChildren(d, path, fn), ApplyToChildren(d', path, fn'), depth)
    ensures CompletesBelow(d, path, fn) <==> CompletesBelow(d', path, fn')
    decreases Descent(d, Shallow(path)), if Shallow(path) then Weight(path) else 0, 1
  {
    hide Completes, Apply, Height;
    ChildIsLower(d);
    match d {
      case Arr(elts) =>
        forall i | 0 <= i < |elts|
          ensures Like(Apply(elts[i], path, false, fn), Apply(d'.elts[i], path, false, fn'), depth - 1)
          ensures Completes(elts[i], path, false, fn) <==> Completes(d'.elts[i], path, false, fn')
        {
          AppliedLike(elts[i], d'.elts[i], path, false, fn, fn', depth - 1);
        }
      case Obj(members) =>
        forall k | k in members
          ensures Like(Apply(members[k], path, false, fn), Apply(d'.members[k], path, false, fn'), depth - 1)
          ensures Completes(members[k], path, false, fn) <==> Completes(d'.members[k], path, false, fn')
        {
          AppliedLike(members[k], d'.members[k], path, false, fn, fn', depth - 1);
        }
        forall k | k in d'.members && k !in members
          ensures Completes(d'.members[k], path, false, fn')
          ensures Bare(Apply(d'.members[k], path, false, fn'), depth - 1)
        {
          BareStays(d'.members[k], path, false, fn', depth - 1);
        }
      case _ =>
    }
  }

  /**
   The evaluator gets to its end exactly when every range completes on every array that the path leads to
   with it, whatever the function, with insertion or without.
   */
  lemma CompletesIff(d: JSON, path: seq<Selector>, definite: bool, fn: JSON -> JSON)
    requires Grounded(path, fn)
    ensures Completes(d, path, definite, fn) <==> Smooth(d, path)
  {
    hide Completes, Smooth, Like;
    var depth := if ScalarValued(fn) then -1 else |path|;
    LikeItself(d, depth);
    assert ScalarValued(Const(Null));
    AppliedLike(d, d, path, definite, Const(Null), fn, depth);
    PlainCompletesIff(d, path);
  }

  lemma ListsCompleteIff(d: JSON, l: seq<Selector>, rest: seq<Selector>, definite: bool, fn: JSON -> JSON)
    requires Grounded(l, fn) && Grounded(rest, fn)
    ensures CompletesList(d, l, rest, definite, fn) <==> SmoothList(d, l, rest)
  {
    hide CompletesList, SmoothList, Like;
    var depth := if ScalarValued(fn) then -1 else 1 + |rest|;
    LikeItself(d, depth);
    assert ScalarValued(Const(Null));
    ListLike(d, d, l, rest, definite, Const(Null), fn, depth);
    ListCompletesIff(d, l, rest);
  }

  lemma AllChildrenCompleteIff(d: JSON, path: seq<Selector>, fn: JSON -> JSON)
    requires Grounded(path, fn)
    ensures CompletesBelow(d, path, fn) <==> SmoothBelow(d, path)
  {
    hide CompletesBelow, SmoothBelow, Like;
    var depth := if ScalarValued(fn) then -1 else 1 + |path|;
    LikeItself(d, depth);
    assert ScalarValued(Const(Null));
    ChildrenLike(d, d, path, Const(Null), fn, depth);
    ChildrenCompleteIff(d, path);
  }

  // ----- Without double dots: prefixes of the path -----

  /** The range is the selector, or in the list at some level. */
  predicate HasRange(sel: Selector, r: Range) {
    match sel
    case Slice(range) => range == r
    case List(l) => exists j :: 0 <= j < |l| && HasRange(l[j], r)
    case _ => false
  }

  /** The beginning of the path selects the place, there is an array, and the range comes next. */
  ghost predicate MetAfter(d: JSON, path: seq<Selector>, p: Place, r: Range) {
    |p| < |path| && HasRange(path[|p|], r) && Selected(d, path[..|p|], p) && ArrayAt(d, p).Some?
  }

  /** Without a double dot, what is met is what the beginnings of the path select. */
  lemma {:induction false} VisitsByPrefix(d: JSON, path: seq<Selector>, p: Place, r: Range)
    requires Shallow(path)
    ensures Visits(d, path, p, r) <==> MetAfter(d, path, p, r)
    decreases |p|, Weight(path), 0
  {
    hide Visits, VisitsByList, Selected, Picks;
    if path == [] {
      NothingVisited(d, p, r);
      return;
    }
    assert ShallowSelector(path[0]) && Weight(path) == WeightOf(path[0]) + Weight(path[1..]);
    VisitsIs(d, path, p, r);
    if path[0].List? {
      ListVisitsByPrefix(d, path[0].list, path[1..], p, r);
      RootSelected(d);
      RootArray(d);
      if p != [] && |p| < |path| {
        PrefixOfRest(path, |p|);
        SelectedIs(d, path[..|p|], p);
      }
    } else if p == [] {
      RootSelected(d);
    } else if |p| < |path| {
      PrefixOfRest(path, |p|);
      SelectedIs(d, path[..|p|], p);
      if HasChild(d, p[0]) {
        VisitsByPrefix(Child(d, p[0]), path[1..], p[1..], r);
      }
    } else if HasChild(d, p[0]) {
      VisitsByPrefix(Child(d, p[0]), path[1..], p[1..], r);
    }
  }

  lemma PrefixOfRest(path: seq<Selector>, n: nat)
    requires 0 < n < |path|
    ensures path[..n] != [] && path[..n][0] == path[0] && path[..n][1..] == path[1..][..n - 1]
    ensures path[n] == path[1..][n - 1]
  {
  }

  lemma {:induction false} ListVisitsByPrefix(d: JSON, l: seq<Selector>, rest: seq<Selector>, p: Place, r: Range)
    requires Shallow(l) && Shallow(rest)
    ensures p == [] ==> (VisitsByList(d, l, rest, p, r) <==> d.Arr? && exists j :: 0 <= j < |l| && HasRange(l[j], r))
    ensures p != [] ==>
              (VisitsByList(d, l, rest, p, r) <==>
               && |p| <= |rest| && HasRange(rest[|p| - 1], r) && ArrayAt(d, p).Some?
               && SelectedByList(d, l, rest[..|p| - 1], p))
    decreases |p|, Weight(l) + Weight(rest), 1
  {
    hide Visits, VisitsByList, Selected, ArrayAt;
    VisitsByListIs(d, l, rest, p, r);
    if l != [] {
      WeightOfPath(l[0], rest);
      var path := [l[0]] + rest;
      VisitsByPrefix(d, path, p, r);
      NotStopped(d, path, p);
      ListVisitsByPrefix(d, l[1..], rest, p, r);
      if p == [] {
        RootSelected(d);
        RootArray(d);
        OneMoreRange(l, r);
      } else if |p| <= |rest| {
        assert path[..|p|] == [l[0]] + rest[..|p| - 1] && path[|p|] == rest[|p| - 1];
      }
    }
  }

  lemma RootArray(d: JSON)
    ensures ArrayAt(d, []).Some? <==> d.Arr?
  {
  }

  lemma OneMoreRange(l: seq<Selector>, r: Range)
    requires l != []
    ensures (exists j :: 0 <= j < |l| && HasRange(l[j], r)) <==>
            HasRange(l[0], r) || exists j :: 0 <= j < |l[1..]| && HasRange(l[1..][j], r)
  {
    if j :| 0 <= j < |l| && HasRange(l[j], r) {
      assert j > 0 ==> l[1..][j - 1] == l[j];
    }
    if j :| 0 <= j < |l[1..]| && HasRange(l[1..][j], r) {
      assert l[j + 1] == l[1..][j];
    }
  }

  /** All that the path selects is further down. */
  lemma NotStopped(d: JSON, path: seq<Selector>, p: Place)
    requires Shallow(path)
    ensures |p| < |path| ==> !Stopped(Sel(d, path), p)
  {
    hide Selected;
    if |p| < |path| && Stopped(Sel(d, path), p) {
      var q :| q in Sel(d, path) && q <= p;
      SelectedDepth(d, path, q);
    }
  }

  /**
   Without a double dot: the evaluator gets to its end exactly when each range of the path completes on
   every array that the selectors before it select, whatever the function, with insertion or without.
   */
  lemma ShallowCompletesIff(d: JSON, path: seq<Selector>, definite: bool, fn: JSON -> JSON)
    requires Shallow(path)
    ensures Completes(d, path, definite, fn) <==>
            forall p, r | MetAfter(d, path, p, r) :: RangeCompletes(r, ArrayAt(d, p).value)
  {
    hide Completes, Visits;
    CompletesIff(d, path, definite, fn);
    forall p, r { VisitsByPrefix(d, path, p, r); }
    hide RangeCompletes, Selected, HasRange, ArrayAt;
  }

  // ----- Conditions that are easy to check -----

  predicate RangeOf(path: seq<Selector>, r: Range) {
    exists i :: 0 <= i < |path| && HasRange(path[i], r)
  }

  lemma {:induction false} VisitsRange(d: JSON, path: seq<Selector>, p: Place, r: Range)
    requires Visits(d, path, p, r)
    ensures RangeOf(path, r) && ArrayAt(d, p).Some?
    decreases |p|, Weight(path), 0
  {
    hide Visits, VisitsByList, Picks;
    if path == [] {
      NothingVisited(d, p, r);
      return;
    }
    assert Weight(path) == WeightOf(path[0]) + Weight(path[1..]);
    VisitsIs(d, path, p, r);
    RangesOfRest(path, r);
    if path[0].List? {
      ListVisitsRange(d, path[0].list, path[1..], p, r);
    } else if path[0].Recurse? && Visits(d, path[1..], p, r) {
      VisitsRange(d, path[1..], p, r);
    } else if p != [] {
      VisitsRange(Child(d, p[0]), if path[0].Recurse? then path else path[1..], p[1..], r);
    }
  }

  lemma RangesOfRest(path: seq<Selector>, r: Range)
    requires path != []
    ensures RangeOf(path, r) <==> HasRange(path[0], r) || RangeOf(path[1..], r)
  {
    if RangeOf(path, r) {
      var i :| 0 <= i < |path| && HasRange(path[i], r);
      assert i > 0 ==> path[1..][i - 1] == path[i];
    }
    if RangeOf(path[1..], r) {
      var i :| 0 <= i < |path[1..]| && HasRange(path[1..][i], r);
      assert path[i + 1] == path[1..][i];
    }
  }

  lemma {:induction false} ListVisitsRange(d: JSON, l: seq<Selector>, rest: seq<Selector>, p: Place, r: Range)
    requires VisitsByList(d, l, rest, p, r)
    ensures RangeOf(l, r) || RangeOf(rest, r)
    ensures ArrayAt(d, p).Some?
    decreases |p|, Weight(l) + Weight(rest), 1
  {
    hide Visits, VisitsByList, RangeOf, ArrayAt;
    VisitsByListIs(d, l, rest, p, r);
    if l != [] {
      RangesOfRest(l, r);
      WeightOfPath(l[0], rest);
      var path := [l[0]] + rest;
      assert path[1..] == rest;
      RangesOfRest(path, r);
      if Visits(d, path, p, r) {
        VisitsRange(d, path, p, r);
      } else {
        ListVisitsRange(d, l[1..], rest, p, r);
      }
    }
  }

  /** On any path: if every range completes on every array of the data, then the evaluator gets to its end. */
  lemma EasilyCompletes(d: JSON, path: seq<Selector>, definite: bool, fn: JSON -> JSON)
    requires Grounded(path, fn)
    requires forall p, r | ArrayAt(d, p).Some? && RangeOf(path, r) :: RangeCompletes(r, ArrayAt(d, p).value)
    ensures Completes(d, path, definite, fn)
  {
    hide Completes, Visits;
    CompletesIff(d, path, definite, fn);
    forall p, r | Visits(d, path, p, r)
      ensures Fine(d, p, r)
    {
      VisitsRange(d, path, p, r);
    }
  }

  /** No array in the data is longer. */
  ghost predicate Short(d: JSON, n: nat) {
    forall p | ArrayAt(d, p).Some? :: ArrayAt(d, p).value <= n
  }

  /** The range goes forward from the beginning or later, and no step from within so many elements overflows. */
  predicate Tame(r: Range, n: nat) {
    r.start >= 0 && r.stride >= 1 && n + r.stride <= MAX_INT64 + 1
  }

  lemma TameCompletes(d: JSON, path: seq<Selector>, definite: bool, fn: JSON -> JSON, n: nat)
    requires Grounded(path, fn) && Short(d, n) && forall r | RangeOf(path, r) :: Tame(r, n)
    ensures Completes(d, path, definite, fn)
  {
    hide Completes, RangeOf;
    forall p, r | ArrayAt(d, p).Some? && RangeOf(path, r)
      ensures RangeCompletes(r, ArrayAt(d, p).value)
    {
      assert Tame(r, n);
    }
    EasilyCompletes(d, path, definite, fn);
  }
}
