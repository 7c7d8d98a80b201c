/**
 A constant that is itself a container, put where a double dot leads (pkg/jsonpath/eval.go): the
 evaluator goes on into what it has just put there. For a double dot with at most one selector after it,
 this says exactly when the evaluator gets to an end: the calls must not nest without bound, and every
 range must complete wherever they lead.
 */
module JsonDescent {
  import opened JsonPath
  import opened JsonEval
  import opened JsonPlaces
  import opened JsonCompletion

  /** What the evaluator has at the node before it goes on to the children. */
  ghost function Here(d: JSON, rest: seq<Selector>, v: JSON): JSON
    requires Shallow(rest)
  {
    Apply(d, rest, false, Const(v))
  }

  /** The calls that the evaluator makes for `..` and the rest of the path nest along this way. */
  ghost predicate Descends(d: JSON, rest: seq<Selector>, v: JSON, way: Place)
    requires Shallow(rest)
    decreases |way|
  {
    way == [] ||
    (HasChild(Here(d, rest, v), way[0]) && Descends(Child(Here(d, rest, v), way[0]), rest, v, way[1..]))
  }

  ghost predicate NestsUpTo(d: JSON, rest: seq<Selector>, v: JSON, n: nat)
    requires Shallow(rest)
  {
    forall way | Descends(d, rest, v, way) :: |way| <= n
  }

  /** There is a bound on how far the calls nest. */
  ghost predicate NestingEnds(d: JSON, rest: seq<Selector>, v: JSON)
    requires Shallow(rest)
  {
    exists n :: NestsUpTo(d, rest, v, n)
  }

  /** The way leads to a call for this value. */
  ghost predicate Leads(d: JSON, rest: seq<Selector>, v: JSON, way: Place, to: JSON)
    requires Shallow(rest)
    decreases |way|
  {
    if way == [] then d == to
    else HasChild(Here(d, rest, v), way[0]) && Leads(Child(Here(d, rest, v), way[0]), rest, v, way[1..], to)
  }

  ghost predicate CompletesAllAlong(d: JSON, rest: seq<Selector>, v: JSON)
    requires Shallow(rest)
  {
    forall way, to | Leads(d, rest, v, way, to) :: Completes(to, rest, false, Const(v))
  }

  /** The calls nest only so far, and each of them gets to its end, at every value that they lead to. */
  ghost predicate Ends(d: JSON, rest: seq<Selector>, v: JSON)
    requires Shallow(rest)
  {
    NestingEnds(d, rest, v) && CompletesAllAlong(d, rest, v)
  }

  lemma {:induction false} LeadsOn(d: JSON, rest: seq<Selector>, v: JSON, way: Place, to: JSON, more: Place)
    requires Shallow(rest) && Leads(d, rest, v, way, to) && Descends(to, rest, v, more)
    ensures Descends(d, rest, v, way + more)
    decreases |way|
  {
    hide Here;
    if way == [] {
      assert way + more == more;
    } else {
      LeadsOn(Child(Here(d, rest, v), way[0]), rest, v, way[1..], to, more);
      assert (way + more)[1..] == way[1..] + more;
    }
  }

  /** Something in the value is selected by `..` and the rest of the path. */
  ghost predicate Touches(d: JSON, rest: seq<Selector>) {
    exists p :: Selected(d, [Recurse] + rest, p)
  }

  /** Something strictly within the value is selected. */
  ghost predicate TouchesWithin(d: JSON, rest: seq<Selector>) {
    exists p :: p != [] && Selected(d, [Recurse] + rest, p)
  }

  // ----- One level -----

  lemma SelectedByDots(d: JSON, rest: seq<Selector>, p: Place)
    ensures Selected(d, [Recurse] + rest, p) <==> Selected(d, rest, p) || SelectedBelow(d, [Recurse] + rest, p)
  {
    assert ([Recurse] + rest)[1..] == rest;
    SelectedIs(d, [Recurse] + rest, p);
  }

  lemma TouchesBelow(d: JSON, rest: seq<Selector>, st: Step)
    ensures HasChild(d, st) && Touches(Child(d, st), rest) ==> Touches(d, rest)
  {
    hide Selected;
    if HasChild(d, st) && Touches(Child(d, st), rest) {
      var p :| Selected(Child(d, st), [Recurse] + rest, p);
      SelectedByDots(d, rest, [st] + p);
      assert ([st] + p)[1..] == p;
    }
  }

  /** With one selector after the dots, a child is the constant if it is selected, and else as it was. */
  lemma HereIs(d: JSON, rest: seq<Selector>, v: JSON, st: Step)
    requires Shallow(rest) && |rest| == 1
    ensures HasChild(Here(d, rest, v), st) <==> HasChild(d, st)
    ensures HasChild(d, st) ==>
              Child(Here(d, rest, v), st) == if Selected(d, rest, [st]) then v else Child(d, st)
    ensures !Selected(d, rest, [])
  {
    hide Selected, Apply, Replace;
    var s := Sel(d, rest);
    ReplacesSelected(d, rest, v);
    Replaced(d, s, v);
    if Selected(d, rest, []) {
      SelectedDepth(d, rest, []);
    }
    SameChildren(d, Here(d, rest, v));
    if HasChild(d, st) {
      forall p | p in Below(s, st)
        ensures p == []
      {
        SelectedDepth(d, rest, [st] + p);
      }
      assert [st] + [] == [st];
      if Selected(d, rest, [st]) {
        assert [] in Below(s, st);
        Replaced(Child(d, st), Below(s, st), v);
      } else {
        assert Below(s, st) == iset{};
        ReplaceNothing(Child(d, st), v);
      }
    }
  }

  // ----- Ends -----

  /** Where nothing is selected, nothing is put, and the way down is no longer than the value is high. */
  lemma {:induction false} QuietDescent(d: JSON, rest: seq<Selector>, v: JSON, way: Place)
    requires Shallow(rest) && |rest| == 1 && Descends(d, rest, v, way)
    requires !Touches(d, rest)
    ensures |way| <= Height(d)
    decreases |way|
  {
    hide Here, Selected, Height;
    if way != [] {
      var st := way[0];
      HereIs(d, rest, v, st);
      SelectedByDots(d, rest, [st]);
      ChildLower(d, st);
      TouchesBelow(d, rest, st);
      QuietDescent(Child(d, st), rest, v, way[1..]);
    }
  }

  /** If nothing is selected within the constant, the way down ends soon after it is met. */
  lemma {:induction false} DescentIntoQuiet(d: JSON, rest: seq<Selector>, v: JSON, way: Place)
    requires Shallow(rest) && |rest| == 1 && Descends(d, rest, v, way)
    requires !Touches(v, rest)
    ensures |way| <= Height(d) + 1 + Height(v)
    decreases |way|
  {
    hide Here, Selected, Height;
    if way != [] {
      HereIs(d, rest, v, way[0]);
      ChildLower(d, way[0]);
      if Selected(d, rest, [way[0]]) {
        QuietDescent(v, rest, v, way[1..]);
      } else {
        DescentIntoQuiet(Child(d, way[0]), rest, v, way[1..]);
      }
    }
  }

  // ----- Goes on forever -----

  /** From a value in which something is selected, a way leads to the constant. */
  lemma {:induction false} LeadsToConstant(d: JSON, rest: seq<Selector>, v: JSON, p: Place) returns (way: Place)
    requires Shallow(rest) && |rest| == 1 && Selected(d, [Recurse] + rest, p)
    ensures way != [] && Leads(d, rest, v, way, v)
    decreases |p|
  {
    hide Here, Selected;
    SelectedByDots(d, rest, p);
    if Selected(d, rest, p) {
      SelectedDepth(d, rest, p);
      assert p == [p[0]];
      SelectedAtChild(d, rest, p[0]);
      HereIs(d, rest, v, p[0]);
      way := p;
    } else {
      var st := p[0];
      HereIs(d, rest, v, st);
      if Selected(d, rest, [st]) {
        way := [st];
      } else {
        var more := LeadsToConstant(Child(d, st), rest, v, p[1..]);
        way := [st] + more;
        assert way[1..] == more;
      }
    }
  }

  lemma SelectedAtChild(d: JSON, rest: seq<Selector>, st: Step)
    requires Shallow(rest) && |rest| == 1 && Selected(d, rest, [st])
    ensures HasChild(d, st)
  {
    SelectedHasChild(d, rest, [st]);
  }

  lemma {:induction false} SelectedHasChild(d: JSON, path: seq<Selector>, p: Place)
    requires Selected(d, path, p) && p != []
    ensures HasChild(d, p[0])
    decreases |p|, Weight(path), 0
  {
    if path != [] {
      assert Weight(path) == WeightOf(path[0]) + Weight(path[1..]);
      if path[0].List? {
        SelectedByListHasChild(d, path[0].list, path[1..], p);
      } else if path[0].Recurse? && Selected(d, path[1..], p) {
        SelectedHasChild(d, path[1..], p);
      }
    }
  }

  lemma {:induction false} SelectedByListHasChild(d: JSON, l: seq<Selector>, rest: seq<Selector>, p: Place)
    requires SelectedByList(d, l, rest, p) && p != []
    ensures HasChild(d, p[0])
    decreases |p|, Weight(l) + Weight(rest), 1
  {
    hide Selected;
    WeightOfPath(l[0], rest);
    if Selected(d, [l[0]] + rest, p) {
      SelectedHasChild(d, [l[0]] + rest, p);
    } else {
      SelectedByListHasChild(d, l[1..], rest, p);
    }
  }

  /** A way that leads from the constant to itself can be gone again and again. */
  lemma {:induction false} RoundAndRound(rest: seq<Selector>, v: JSON, loop: Place, n: nat) returns (way: Place)
    requires Shallow(rest) && loop != [] && Leads(v, rest, v, loop, v)
    ensures |way| > n && Descends(v, rest, v, way)
    decreases n
  {
    hide Leads;
    var more: Place := [];
    if n > 0 {
      more := RoundAndRound(rest, v, loop, n - 1);
    }
    LeadsOn(v, rest, v, loop, v, more);
    way := loop + more;
  }

  /** A lone double dot puts the constant at every node, and goes on with its children. */
  lemma {:induction false} DotsAlone(d: JSON, v: JSON, st: Step, n: nat) returns (way: Place)
    requires HasChild(v, st)
    ensures |way| == n && Descends(d, [], v, way)
    decreases n
  {
    assert Here(d, [], v) == v;
    way := [];
    if n > 0 {
      var more := DotsAlone(Child(v, st), v, st, n - 1);
      way := [st] + more;
      assert way[1..] == more;
    }
  }

  lemma DotsAloneEnd(d: JSON, v: JSON)
    ensures NestingEnds(d, [], v) <==> forall st :: !HasChild(v, st)
  {
    assert Here(d, [], v) == v;
    if st :| HasChild(v, st) {
      forall n: nat
        ensures !NestsUpTo(d, [], v, n)
      {
        var way := DotsAlone(d, v, st, n + 1);
      }
    } else {
      assert NestsUpTo(d, [], v, 0);
    }
  }

  /** Something is selected in the value and in the constant: the calls nest without bound. */
  lemma GoesOn(d: JSON, rest: seq<Selector>, v: JSON)
    requires Shallow(rest) && |rest| == 1
    requires Touches(d, rest) && Touches(v, rest)
    ensures !NestingEnds(d, rest, v)
  {
    hide Descends, Selected, Leads;
    var p :| Selected(d, [Recurse] + rest, p);
    var q :| Selected(v, [Recurse] + rest, q);
    var first := LeadsToConstant(d, rest, v, p);
    var loop := LeadsToConstant(v, rest, v, q);
    forall n: nat
      ensures !NestsUpTo(d, rest, v, n)
    {
      var more := RoundAndRound(rest, v, loop, n);
      LeadsOn(d, rest, v, first, v, more);
      assert |first + more| > n;
    }
  }

  lemma OneStepEnds(d: JSON, rest: seq<Selector>, v: JSON)
    requires Shallow(rest) && |rest| == 1
    ensures NestingEnds(d, rest, v) <==> !Touches(d, rest) || !Touches(v, rest)
  {
    hide Descends, Touches, Height;
    if !Touches(d, rest) {
      forall way | Descends(d, rest, v, way)
        ensures |way| <= Height(d)
      {
        QuietDescent(d, rest, v, way);
      }
      assert NestsUpTo(d, rest, v, Height(d));
    } else if !Touches(v, rest) {
      forall way | Descends(d, rest, v, way)
        ensures |way| <= Height(d) + 1 + Height(v)
      {
        DescentIntoQuiet(d, rest, v, way);
      }
      assert NestsUpTo(d, rest, v, Height(d) + 1 + Height(v));
    } else {
      GoesOn(d, rest, v);
    }
  }

  // ----- Ranges -----

  ghost predicate SmoothAllAlong(d: JSON, rest: seq<Selector>, v: JSON)
    requires Shallow(rest)
  {
    forall way, to | Leads(d, rest, v, way, to) :: Smooth(to, rest)
  }

  lemma SmoothAllAlongIs(d: JSON, rest: seq<Selector>, v: JSON)
    requires Shallow(rest)
    ensures SmoothAllAlong(d, rest, v) <==> CompletesAllAlong(d, rest, v)
  {
    hide Leads, Smooth, Completes;
    if SmoothAllAlong(d, rest, v) {
      forall way, to | Leads(d, rest, v, way, to)
        ensures Completes(to, rest, false, Const(v))
      {
        CompletesIff(to, rest, false, Const(v));
      }
    }
    if CompletesAllAlong(d, rest, v) {
      forall way, to | Leads(d, rest, v, way, to)
        ensures Smooth(to, rest)
      {
        CompletesIff(to, rest, false, Const(v));
      }
    }
  }

  /** With one selector after the dots: here, and below in the children that are not replaced. */
  lemma VisitsByDots(d: JSON, rest: seq<Selector>, st: Step, q: Place, r: Range)
    requires Shallow(rest) && |rest| == 1 && HasChild(d, st)
    ensures Visits(d, rest, [st] + q, r) ==> Visits(d, [Recurse] + rest, [st] + q, r)
    ensures !Selected(d, rest, [st]) && Visits(Child(d, st), [Recurse] + rest, q, r) ==>
              Visits(d, [Recurse] + rest, [st] + q, r)
  {
    hide Visits, Selected;
    var path, p := [Recurse] + rest, [st] + q;
    assert path[1..] == rest && p[0] == st && p[1..] == q;
    VisitsIs(d, path, p, r);
    if Stopped(Sel(d, rest), p) {
      var x :| x in Sel(d, rest) && x <= p;
      SelectedDepth(d, rest, x);
      assert x == [st];
    }
  }

  lemma SmoothHere(d: JSON, rest: seq<Selector>)
    requires Smooth(d, [Recurse] + rest)
    ensures Smooth(d, rest)
  {
    hide Visits, Fine;
    var path := [Recurse] + rest;
    assert path[1..] == rest;
    forall p, r | Visits(d, rest, p, r)
      ensures Fine(d, p, r)
    {
      VisitsIs(d, path, p, r);
    }
  }

  lemma SmoothAtChild(d: JSON, rest: seq<Selector>, st: Step)
    requires Shallow(rest) && |rest| == 1 && HasChild(d, st) && !Selected(d, rest, [st])
    requires Smooth(d, [Recurse] + rest)
    ensures Smooth(Child(d, st), [Recurse] + rest)
  {
    hide Visits, Fine, Selected;
    forall q, r | Visits(Child(d, st), [Recurse] + rest, q, r)
      ensures Fine(Child(d, st), q, r)
    {
      VisitsByDots(d, rest, st, q, r);
      var p := [st] + q;
      assert p[0] == st && p[1..] == q;
      FineBelow(d, p, r);
    }
  }

  /** Smooth data and, if it is put anywhere, a smooth constant: then smooth all along. */
  lemma {:induction false} SmoothAtEnd(d: JSON, rest: seq<Selector>, v: JSON, way: Place, to: JSON)
    requires Shallow(rest) && |rest| == 1 && Leads(d, rest, v, way, to)
    requires Smooth(d, [Recurse] + rest) && (Touches(d, rest) ==> Smooth(v, [Recurse] + rest))
    ensures Smooth(to, rest)
    decreases |way|
  {
    hide Here, Selected, Smooth;
    if way == [] {
      SmoothHere(d, rest);
    } else {
      var st := way[0];
      HereIs(d, rest, v, st);
      if Selected(d, rest, [st]) {
        SelectedByDots(d, rest, [st]);
        SmoothAtEnd(v, rest, v, way[1..], to);
      } else {
        SmoothAtChild(d, rest, st);
        TouchesBelow(d, rest, st);
        SmoothAtEnd(Child(d, st), rest, v, way[1..], to);
      }
    }
  }

  lemma NotReplaced(d: JSON, rest: seq<Selector>, p: Place)
    requires p != [] && !Stopped(Sel(d, rest), p)
    ensures !Selected(d, rest, [p[0]])
  {
    hide Selected;
    assert [p[0]] <= p;
    assert [p[0]] !in Sel(d, rest);
  }

  /** Conversely, what the path visits is visited by one of the calls. */
  lemma {:induction false} FineIfLed(d: JSON, rest: seq<Selector>, v: JSON, p: Place, r: Range)
    requires Shallow(rest) && |rest| == 1 && SmoothAllAlong(d, rest, v) && Visits(d, [Recurse] + rest, p, r)
    ensures Fine(d, p, r)
    decreases |p|
  {
    hide Here, Selected, Visits, Fine;
    var path := [Recurse] + rest;
    assert path[1..] == rest;
    VisitsIs(d, path, p, r);
    if Visits(d, rest, p, r) {
      assert Leads(d, rest, v, [], d);
    } else {
      var st := p[0];
      NotReplaced(d, rest, p);
      HereIs(d, rest, v, st);
      forall way, to | Leads(Child(d, st), rest, v, way, to)
        ensures Smooth(to, rest)
      {
        assert ([st] + way)[1..] == way;
        assert Leads(d, rest, v, [st] + way, to);
      }
      FineIfLed(Child(d, st), rest, v, p[1..], r);
      FineBelow(d, p, r);
    }
  }

  lemma {:induction false} LeadsFurther(d: JSON, rest: seq<Selector>, v: JSON, way: Place, mid: JSON, more: Place,
                                        to: JSON)
    requires Shallow(rest) && Leads(d, rest, v, way, mid) && Leads(mid, rest, v, more, to)
    ensures Leads(d, rest, v, way + more, to)
    decreases |way|
  {
    hide Here;
    if way == [] {
      assert way + more == more;
    } else {
      LeadsFurther(Child(Here(d, rest, v), way[0]), rest, v, way[1..], mid, more, to);
      assert (way + more)[1..] == way[1..] + more;
    }
  }

  lemma SmoothAllAlongIff(d: JSON, rest: seq<Selector>, v: JSON)
    requires Shallow(rest) && |rest| == 1
    ensures SmoothAllAlong(d, rest, v) <==>
            Smooth(d, [Recurse] + rest) && (Touches(d, rest) ==> Smooth(v, [Recurse] + rest))
  {
    hide Leads, Visits, Fine, Selected;
    if SmoothAllAlong(d, rest, v) {
      forall p, r | Visits(d, [Recurse] + rest, p, r)
        ensures Fine(d, p, r)
      {
        FineIfLed(d, rest, v, p, r);
      }
      if Touches(d, rest) {
        SmoothConstant(d, rest, v);
      }
    }
    if Smooth(d, [Recurse] + rest) && (Touches(d, rest) ==> Smooth(v, [Recurse] + rest)) {
      forall way, to | Leads(d, rest, v, way, to)
        ensures Smooth(to, rest)
      {
        SmoothAtEnd(d, rest, v, way, to);
      }
    }
  }

  lemma SmoothConstant(d: JSON, rest: seq<Selector>, v: JSON)
    requires Shallow(rest) && |rest| == 1 && SmoothAllAlong(d, rest, v) && Touches(d, rest)
    ensures Smooth(v, [Recurse] + rest)
  {
    hide Leads, Visits, Fine, Selected;
    var p :| Selected(d, [Recurse] + rest, p);
    var way := LeadsToConstant(d, rest, v, p);
    forall more, to | Leads(v, rest, v, more, to)
      ensures Smooth(to, rest)
    {
      LeadsFurther(d, rest, v, way, v, more, to);
    }
    forall q, r | Visits(v, [Recurse] + rest, q, r)
      ensures Fine(v, q, r)
    {
      FineIfLed(v, rest, v, q, r);
    }
  }

  /** There is no range in a lone double dot. */
  lemma DotsAreSmooth(d: JSON)
    ensures Smooth(d, [Recurse] + []) && Smooth(d, [])
  {
    hide Visits, Fine;
    forall p, r
      ensures !Visits(d, [Recurse] + [], p, r) && !Visits(d, [], p, r)
    {
      NothingVisited(d, p, r);
      if Visits(d, [Recurse] + [], p, r) {
        VisitsRange(d, [Recurse] + [], p, r);
      }
    }
  }

  /**
   For a double dot with at most one selector after it: putting a constant ends exactly when the path
   selects nothing in the value, or nothing strictly within the constant itself, and its ranges complete
   on every array that it leads to in the value, and in the constant too if that is put anywhere.
   */
  lemma EndsIff(d: JSON, rest: seq<Selector>, v: JSON)
    requires Shallow(rest) && |rest| <= 1
    ensures Ends(d, rest, v) <==>
            && (!Touches(d, rest) || !TouchesWithin(v, rest))
            && Smooth(d, [Recurse] + rest)
            && (Touches(d, rest) ==> Smooth(v, [Recurse] + rest))
  {
    hide NestingEnds, Touches, TouchesWithin, Smooth, SmoothAllAlong, CompletesAllAlong;
    SmoothAllAlongIs(d, rest, v);
    if rest == [] {
      DotsAloneEnd(d, v);
      DotsTouchAll(d, v);
      DotsAreSmooth(d);
      DotsAreSmooth(v);
      NoRangesAlong(d, v);
    } else {
      OneStepEnds(d, rest, v);
      RootNotTouched(v, rest);
      SmoothAllAlongIff(d, rest, v);
    }
  }

  lemma NoRangesAlong(d: JSON, v: JSON)
    ensures SmoothAllAlong(d, [], v)
  {
    hide Smooth, Leads;
    forall way, to | Leads(d, [], v, way, to)
      ensures Smooth(to, [])
    {
      DotsAreSmooth(to);
    }
  }

  lemma RootNotTouched(v: JSON, rest: seq<Selector>)
    requires Shallow(rest) && |rest| == 1
    ensures Touches(v, rest) <==> TouchesWithin(v, rest)
  {
    SelectedByDots(v, rest, []);
    HereIs(v, rest, v, Index(0));
  }

  lemma DotsTouchAll(d: JSON, v: JSON)
    ensures Touches(d, [])
    ensures TouchesWithin(v, []) <==> exists st :: HasChild(v, st)
  {
    hide Selected;
    RootSelected(d);
    SelectedByDots(d, [], []);
    if st :| HasChild(v, st) {
      var c := Child(v, st);
      RootSelected(c);
      SelectedByDots(c, [], []);
      SelectedByDots(v, [], [st]);
      assert [st][1..] == [] && [st] != [];
    }
    if TouchesWithin(v, []) {
      var p :| p != [] && Selected(v, [Recurse] + [], p);
      SelectedHasChild(v, [Recurse] + [], p);
    }
  }
}
