/**
 What a path selects, and what replacing the selected places by a constant does. Selection and
 replacement are defined apart from the evaluator, and the evaluator is proved to combine them.
 */
module JsonPlaces {
  import opened JsonPath
  import opened JsonEval

  datatype Step = Key(key: string) | Index(index: int)

  /** The steps from the root of a value to a place in it. */
  type Place = seq<Step>

  predicate HasChild(d: JSON, st: Step) {
    match st
    case Key(k) => d.Obj? && k in d.members
    case Index(i) => d.Arr? && 0 <= i < |d.elts|
  }

  function Child(d: JSON, st: Step): JSON
    requires HasChild(d, st)
  {
    match st
    case Key(k) => d.members[k]
    case Index(i) => d.elts[i]
  }

  ghost predicate SameShape(a: JSON, b: JSON) {
    || (a.Obj? && b.Obj? && a.members.Keys == b.members.Keys)
    || (a.Arr? && b.Arr? && |a.elts| == |b.elts|)
    || (IsScalar(a) && a == b)
  }

  lemma SameValue(a: JSON, b: JSON)
    requires SameShape(a, b) && forall st | HasChild(a, st) :: HasChild(b, st) && Child(a, st) == Child(b, st)
    ensures a == b
  {
    if a.Arr? {
      forall i | 0 <= i < |a.elts|
        ensures a.elts[i] == b.elts[i]
      {
        assert HasChild(a, Index(i));
      }
      assert a.elts == b.elts;
    } else if a.Obj? {
      forall k | k in a.members
        ensures a.members[k] == b.members[k]
      {
        assert HasChild(a, Key(k));
      }
      assert a.members == b.members;
    }
  }

  lemma ChildLower(d: JSON, st: Step)
    requires HasChild(d, st)
    ensures Height(Child(d, st)) < Height(d)
  {
    ChildIsLower(d);
  }

  // ----- Selection -----

  /** The children that a selector of one level picks. */
  predicate Picks(sel: Selector, d: JSON, st: Step)
  {
    HasChild(d, st) &&
    match sel
    case Name(name) => st == Key(name)
    case Slice(range) => st.Index? && Covers(range, |d.elts|, st.index)
    case EveryChild => true
    case _ => false
  }

  /** The path leads to the place. */
  ghost predicate Selected(d: JSON, path: seq<Selector>, p: Place)
    decreases |p|, Weight(path), 0
  {
    if path == [] then p == []
    else
      assert Weight(path) == WeightOf(path[0]) + Weight(path[1..]);
      match path[0]
      case List(l) => SelectedByList(d, l, path[1..], p)
      case Recurse =>
        || Selected(d, path[1..], p)
        || (p != [] && HasChild(d, p[0]) && Selected(Child(d, p[0]), path, p[1..]))
      case _ => p != [] && Picks(path[0], d, p[0]) && Selected(Child(d, p[0]), path[1..], p[1..])
  }

  /** Some member of the list leads to the place. */
  ghost predicate SelectedByList(d: JSON, l: seq<Selector>, rest: seq<Selector>, p: Place)
    decreases |p|, Weight(l) + Weight(rest), 1
  {
    if l == [] then false
    else
      WeightOfPath(l[0], rest);
      Selected(d, [l[0]] + rest, p) || SelectedByList(d, l[1..], rest, p)
  }

  lemma SelectedIs(d: JSON, path: seq<Selector>, p: Place)
    requires path != []
    ensures path[0].List? ==> (Selected(d, path, p) <==> SelectedByList(d, path[0].list, path[1..], p))
    ensures path[0].Recurse? ==> (Selected(d, path, p) <==> Selected(d, path[1..], p) || SelectedBelow(d, path, p))
    ensures !path[0].List? && !path[0].Recurse? ==>
              (Selected(d, path, p) <==> SelectedBelow(d, path[1..], p) && Picks(path[0], d, p[0]))
  {
    hide SelectedByList;
  }

  /** A range selects the elements that it gets to from its start, before its end. */
  lemma RangeSelects(d: JSON, r: Range, p: Place)
    ensures Selected(d, [Slice(r)], p) <==>
            && d.Arr? && r.stride >= 1 && |p| == 1 && p[0].Index? && 0 <= p[0].index < |d.elts|
            && (r.afterEnd.Some? ==> p[0].index < r.afterEnd.value)
            && exists n: nat :: p[0].index == r.start + n * r.stride
  {
    SelectedIs(d, [Slice(r)], p);
    if p != [] && p[0].Index? && d.Arr? {
      CoversIs(r, |d.elts|, p[0].index);
    }
  }

  /** An index selects the one element that has it. */
  lemma IndexSelects(d: JSON, k: Int64, p: Place)
    requires k >= 0
    ensures Selected(d, [Slice(RangeOf1(k))], p) <==>
            d.Arr? && k < |d.elts| && k < 9223372036854775807 && p == [Index(k)]
  {
    RangeSelects(d, RangeOf1(k), p);
    if d.Arr? && k < |d.elts| && k < 9223372036854775807 && p == [Index(k)] {
      assert p[0].index == k + 0 * 1;
    }
  }

  ghost function Sel(d: JSON, path: seq<Selector>): iset<Place>
  {
    iset p: Place | Selected(d, path, p)
  }

  ghost function SelByList(d: JSON, l: seq<Selector>, rest: seq<Selector>): iset<Place>
  {
    iset p: Place | SelectedByList(d, l, rest, p)
  }

  ghost predicate SelectedBelow(d: JSON, path: seq<Selector>, p: Place)
  {
    p != [] && HasChild(d, p[0]) && Selected(Child(d, p[0]), path, p[1..])
  }

  /** What the path selects within the children. */
  ghost function SelBelow(d: JSON, path: seq<Selector>): iset<Place>
  {
    iset p: Place | SelectedBelow(d, path, p)
  }

  // ----- Replacement -----

  ghost function Below(s: iset<Place>, st: Step): iset<Place> {
    iset p: Place | [st] + p in s
  }

  /** The value with `v` at the places, the uppermost ones first; what was below them is gone. */
  ghost function Replace(d: JSON, s: iset<Place>, v: JSON): JSON {
    if [] in s then v
    else
      match d
      case Arr(elts) => Arr(seq(|elts|, i requires 0 <= i < |elts| => Replace(elts[i], Below(s, Index(i)), v)))
      case Obj(members) => Obj(map k | k in members :: Replace(members[k], Below(s, Key(k)), v))
      case _ => d
  }

  lemma Replaced(d: JSON, s: iset<Place>, v: JSON)
    ensures [] in s ==> Replace(d, s, v) == v
    ensures [] !in s ==> SameShape(d, Replace(d, s, v))
    ensures [] !in s ==> forall st | HasChild(d, st) ::
                           && HasChild(Replace(d, s, v), st)
                           && Child(Replace(d, s, v), st) == Replace(Child(d, st), Below(s, st), v)
  {
  }

  lemma SameChildren(a: JSON, b: JSON)
    requires SameShape(a, b)
    ensures forall st :: HasChild(a, st) <==> HasChild(b, st)
    ensures forall sel, st :: Picks(sel, a, st) <==> Picks(sel, b, st)
  {
  }

  lemma {:induction false} ReplaceNothing(d: JSON, v: JSON)
    ensures Replace(d, iset{}, v) == d
    decreases Height(d)
  {
    Replaced(d, iset{}, v);
    forall st | HasChild(d, st)
      ensures Child(Replace(d, iset{}, v), st) == Child(d, st)
    {
      ChildLower(d, st);
      assert Below(iset{}, st) == iset{};
      ReplaceNothing(Child(d, st), v);
    }
    SameValue(d, Replace(d, iset{}, v));
  }

  /** The place is strictly below one of these. */
  ghost predicate Under(s: iset<Place>, p: Place) {
    exists n :: 0 <= n < |p| && p[..n] in s
  }

  lemma UnderStep(s: iset<Place>, st: Step, p: Place)
    ensures Under(s, [st] + p) <==> [] in s || Under(Below(s, st), p)
  {
    var q := [st] + p;
    if Under(s, q) && [] !in s {
      var n :| 0 <= n < |q| && q[..n] in s;
      assert q[..n] == [st] + p[..n - 1];
      assert p[..n - 1] in Below(s, st);
    }
    if Under(Below(s, st), p) {
      var n :| 0 <= n < |p| && p[..n] in Below(s, st);
      assert q[..n + 1] == [st] + p[..n];
    }
    if [] in s {
      assert q[..0] == [];
    }
  }

  /** Two selections agree on the places that are not strictly below these. */
  ghost predicate Agree(s: iset<Place>, t: iset<Place>, t': iset<Place>) {
    forall p | !Under(s, p) :: p in t' <==> p in t
  }

  lemma AgreeAtRoot(s: iset<Place>, t: iset<Place>, t': iset<Place>)
    requires Agree(s, t, t')
    ensures [] in t' <==> [] in t
  {
    assert !Under(s, []);
  }

  lemma AgreeBelow(s: iset<Place>, t: iset<Place>, t': iset<Place>, st: Step)
    requires Agree(s, t, t') && [] !in s
    ensures Agree(Below(s, st), Below(t, st), Below(t', st))
  {
    forall p | !Under(Below(s, st), p)
      ensures p in Below(t', st) <==> p in Below(t, st)
    {
      UnderStep(s, st, p);
      assert !Under(s, [st] + p);
    }
  }

  lemma BelowUnion(s: iset<Place>, t: iset<Place>, st: Step)
    ensures Below(s + t, st) == Below(s, st) + Below(t, st)
  {
  }

  /** None of these is strictly below one of those. */
  ghost predicate Clear(s: iset<Place>, t: iset<Place>) {
    forall p | p in t :: !Under(s, p)
  }

  lemma ClearBelow(s: iset<Place>, t: iset<Place>, st: Step)
    requires Clear(s, t)
    ensures Clear(Below(s, st), Below(t, st))
  {
    forall p | p in Below(t, st)
      ensures !Under(Below(s, st), p)
    {
      UnderStep(s, st, p);
    }
  }

  lemma NothingAsked(s: iset<Place>, t: iset<Place>, v: JSON)
    requires Clear(s, t) && [] in s && [] !in t
    ensures Replace(v, t, v) == v
  {
    forall p | p in t
      ensures false
    {
      NothingBelow(s, p);
    }
    assert t == iset{};
    ReplaceNothing(v, v);
  }

  /**
   Replacing again: whatever is asked for below what is gone does not matter, if the replacement is a
   scalar; otherwise nothing may be asked for there.
   */
  lemma {:induction false} ReplaceTwice(d: JSON, s1: iset<Place>, s2: iset<Place>, s2': iset<Place>, v: JSON)
    requires Agree(s1, s2, s2') && (IsScalar(v) || Clear(s1, s2'))
    ensures Replace(Replace(d, s1, v), s2', v) == Replace(d, s1 + s2, v)
    decreases Height(d)
  {
    hide Replace, Agree, Clear, Below, Height;
    var d1 := Replace(d, s1, v);
    Replaced(d, s1, v);
    Replaced(d1, s2', v);
    Replaced(d, s1 + s2, v);
    AgreeAtRoot(s1, s2, s2');
    if [] in s1 {
      if !IsScalar(v) && [] !in s2' {
        NothingAsked(s1, s2', v);
      }
    } else if [] !in s2 {
      SameChildren(d, d1);
      forall st | HasChild(d, st)
        ensures Child(Replace(d1, s2', v), st) == Child(Replace(d, s1 + s2, v), st)
      {
        ChildLower(d, st);
        AgreeBelow(s1, s2, s2', st);
        if !IsScalar(v) {
          ClearBelow(s1, s2', st);
        }
        ReplaceTwice(Child(d, st), Below(s1, st), Below(s2, st), Below(s2', st), v);
        BelowUnion(s1, s2, st);
      }
      SameValue(Replace(d1, s2', v), Replace(d, s1 + s2, v));
    }
  }

  // ----- Selection after replacement -----

  /** After a replacement a path selects what it selected before, less what is gone; nothing is said of new places. */
  lemma {:induction false} SelectedAfterReplace(d: JSON, s: iset<Place>, v: JSON, path: seq<Selector>, p: Place)
    requires IsScalar(v) || !Under(s, p)
    ensures Selected(Replace(d, s, v), path, p) <==> Selected(d, path, p) && !Under(s, p)
    decreases |p|, Weight(path), 0
  {
    if path == [] {
      return;
    }
    hide Selected, SelectedByList, SelectedBelow, Replace, Under;
    assert Weight(path) == WeightOf(path[0]) + Weight(path[1..]);
    SelectedIs(d, path, p);
    SelectedIs(Replace(d, s, v), path, p);
    if path[0].List? {
      SelectedByListAfterReplace(d, s, v, path[0].list, path[1..], p);
    } else if path[0].Recurse? {
      SelectedAfterReplace(d, s, v, path[1..], p);
      SelectedBelowAfterReplace(d, s, v, path, p);
    } else {
      SelectedBelowAfterReplace(d, s, v, path[1..], p);
      BelowSomething(d, path[1..], p);
      BelowSomething(Replace(d, s, v), path[1..], p);
      Replaced(d, s, v);
      if [] in s {
        NothingBelow(s, p);
      } else {
        SameChildren(d, Replace(d, s, v));
      }
    }
  }

  lemma BelowSomething(d: JSON, path: seq<Selector>, p: Place)
    ensures SelectedBelow(d, path, p) ==> p != []
  {
  }

  lemma NothingBelow(s: iset<Place>, p: Place)
    requires [] in s
    ensures p != [] ==> Under(s, p)
  {
    if p != [] {
      assert p[..0] == [];
    }
  }

  lemma {:induction false} SelectedBelowAfterReplace(d: JSON, s: iset<Place>, v: JSON, path: seq<Selector>, p: Place)
    requires IsScalar(v) || !Under(s, p)
    ensures SelectedBelow(Replace(d, s, v), path, p) <==> SelectedBelow(d, path, p) && !Under(s, p)
    decreases |p|, 0, 0
  {
    var d1 := Replace(d, s, v);
    Replaced(d, s, v);
    if p != [] {
      var st, q := p[0], p[1..];
      assert p == [st] + q;
      UnderStep(s, st, q);
      if [] !in s {
        SameChildren(d, d1);
        if HasChild(d, st) {
          SelectedAfterReplace(Child(d, st), Below(s, st), v, path, q);
        }
      }
    }
  }

  lemma {:induction false} SelectedByListAfterReplace(d: JSON, s: iset<Place>, v: JSON, l: seq<Selector>,
                                                      rest: seq<Selector>, p: Place)
    requires IsScalar(v) || !Under(s, p)
    ensures SelectedByList(Replace(d, s, v), l, rest, p) <==> SelectedByList(d, l, rest, p) && !Under(s, p)
    decreases |p|, Weight(l) + Weight(rest), 1
  {
    if l != [] {
      WeightOfPath(l[0], rest);
      SelectedAfterReplace(d, s, v, [l[0]] + rest, p);
      SelectedByListAfterReplace(d, s, v, l[1..], rest, p);
    }
  }

  // ----- The evaluator, without insertion -----

  /** Under a double dot a parent is visited before its children: what the function makes of it has none. */
  lemma ParentFirst(d: JSON, definite: bool, fn: JSON -> JSON)
    requires ScalarValued(fn)
    ensures Apply(d, [Recurse], definite, fn) == fn(d)
  {
    hide Apply, Height;
    AppliedToOthers(d, [Recurse], definite, fn);
    AppliedToOthers(d, [], false, fn);
    assert [Recurse][1..] == [];
    assert IsScalar(fn(d));
  }

  function Const(v: JSON): JSON -> JSON {
    (_: JSON) => v
  }

  /** A constant that is not a scalar may be put where a path goes without a double dot. */
  predicate Fits(path: seq<Selector>, v: JSON) {
    IsScalar(v) || Shallow(path)
  }

  /** Without a double dot, a path leads as far down as it is long. */
  lemma {:induction false} SelectedDepth(d: JSON, path: seq<Selector>, p: Place)
    requires Shallow(path) && Selected(d, path, p)
    ensures |p| == |path|
    decreases |p|, Weight(path), 0
  {
    if path != [] {
      assert ShallowSelector(path[0]) && Weight(path) == WeightOf(path[0]) + Weight(path[1..]);
      if path[0].List? {
        SelectedByListDepth(d, path[0].list, path[1..], p);
      } else {
        SelectedDepth(Child(d, p[0]), path[1..], p[1..]);
      }
    }
  }

  lemma {:induction false} SelectedByListDepth(d: JSON, l: seq<Selector>, rest: seq<Selector>, p: Place)
    requires Shallow(l) && Shallow(rest) && SelectedByList(d, l, rest, p)
    ensures |p| == 1 + |rest|
    decreases |p|, Weight(l) + Weight(rest), 1
  {
    hide Selected;
    WeightOfPath(l[0], rest);
    if Selected(d, [l[0]] + rest, p) {
      SelectedDepth(d, [l[0]] + rest, p);
    } else {
      SelectedByListDepth(d, l[1..], rest, p);
    }
  }

  lemma ListIsClear(d: JSON, d1: JSON, l: seq<Selector>, rest: seq<Selector>)
    requires l != [] && Shallow(l) && Shallow(rest)
    ensures Clear(Sel(d, [l[0]] + rest), SelByList(d1, l[1..], rest))
  {
    hide Selected, SelectedByList;
    forall p, n | p in SelByList(d1, l[1..], rest) && 0 <= n < |p|
      ensures p[..n] !in Sel(d, [l[0]] + rest)
    {
      SelectedByListDepth(d1, l[1..], rest, p);
      if Selected(d, [l[0]] + rest, p[..n]) {
        SelectedDepth(d, [l[0]] + rest, p[..n]);
      }
    }
  }

  /** A selector of one level passes on to the children that it picks, and leaves the others alone. */
  lemma AppliedOneLevel(d: JSON, path: seq<Selector>, fn: JSON -> JSON)
    requires Grounded(path, fn) && path != [] && !path[0].List? && !path[0].Recurse?
    ensures SameShape(d, Apply(d, path, false, fn))
    ensures forall st | HasChild(d, st) ::
              && HasChild(Apply(d, path, false, fn), st)
              && Child(Apply(d, path, false, fn), st) ==
                 if Picks(path[0], d, st) then Apply(Child(d, st), path[1..], false, fn) else Child(d, st)
  {
    hide Height;
  }

  lemma AppliedBelow(d: JSON, path: seq<Selector>, fn: JSON -> JSON)
    requires Grounded(path, fn)
    ensures SameShape(d, ApplyToChildren(d, path, fn))
    ensures forall st | HasChild(d, st) ::
              && HasChild(ApplyToChildren(d, path, fn), st)
              && Child(ApplyToChildren(d, path, fn), st) == Apply(Child(d, st), path, false, fn)
  {
    hide Height, Apply;
  }

  lemma SelBelowOneLevel(d: JSON, path: seq<Selector>, st: Step)
    requires path != [] && !path[0].List? && !path[0].Recurse? && HasChild(d, st)
    ensures [] !in Sel(d, path)
    ensures Below(Sel(d, path), st) == if Picks(path[0], d, st) then Sel(Child(d, st), path[1..]) else iset{}
  {
    forall p: Place
      ensures p in Below(Sel(d, path), st) <==> Picks(path[0], d, st) && Selected(Child(d, st), path[1..], p)
    {
      assert ([st] + p)[0] == st && ([st] + p)[1..] == p;
    }
  }

  lemma BelowSelBelow(d: JSON, path: seq<Selector>, st: Step)
    requires HasChild(d, st)
    ensures [] !in SelBelow(d, path)
    ensures Below(SelBelow(d, path), st) == Sel(Child(d, st), path)
  {
    forall p: Place
      ensures p in Below(SelBelow(d, path), st) <==> Selected(Child(d, st), path, p)
    {
      assert ([st] + p)[0] == st && ([st] + p)[1..] == p;
    }
  }

  /**
   Applying a constant without insertion replaces exactly the places that the path selects: there
   the constant stands, everything else that is not below such a place is as before, and no key comes in.
   */
  lemma {:induction false} ReplacesSelected(d: JSON, path: seq<Selector>, v: JSON)
    requires Fits(path, v)
    ensures Apply(d, path, false, Const(v)) == Replace(d, Sel(d, path), v)
    decreases Descent(d, Shallow(path)), Weight(path), 0
  {
    hide Apply, ApplyList, ApplyToChildren, Selected, SelectedByList, Replace, Height;
    var fn := Const(v);
    AppliedToOthers(d, path, false, fn);
    if path == [] {
      RootSelected(d);
      Replaced(d, Sel(d, path), v);
      return;
    }
    assert Weight(path) == WeightOf(path[0]) + Weight(path[1..]);
    if path[0].List? {
      ReplacesSelectedByList(d, path[0].list, path[1..], v);
      SameSelByList(d, path);
    } else if path[0].Recurse? {
      ReplacesSelected(d, path[1..], v);
      ReplacesBelow(d, path, v);
    } else {
      AppliedOneLevel(d, path, fn);
      ReplacesOneLevel(d, path, v);
    }
  }

  lemma RootSelected(d: JSON)
    ensures [] in Sel(d, [])
  {
  }

  lemma SameSelByList(d: JSON, path: seq<Selector>)
    requires path != [] && path[0].List?
    ensures Sel(d, path) == SelByList(d, path[0].list, path[1..])
  {
  }

  lemma {:induction false} ReplacesOneLevel(d: JSON, path: seq<Selector>, v: JSON)
    requires Fits(path, v) && path != [] && !path[0].List? && !path[0].Recurse?
    ensures Apply(d, path, false, Const(v)) == Replace(d, Sel(d, path), v)
    decreases Descent(d, Shallow(path)), if Shallow(path) then Weight(path[1..]) else 0, 1
  {
    hide Apply, Sel, Replace, Height, Picks;
    AppliedOneLevel(d, path, Const(v));
    Replaced(d, Sel(d, path), v);
    RootNotSelected(d, path);
    forall st | HasChild(d, st)
      ensures Child(Apply(d, path, false, Const(v)), st) == Child(Replace(d, Sel(d, path), v), st)
    {
      ChildLower(d, st);
      SelBelowOneLevel(d, path, st);
      if Picks(path[0], d, st) {
        ReplacesSelected(Child(d, st), path[1..], v);
      } else {
        ReplaceNothing(Child(d, st), v);
      }
    }
    SameValue(Apply(d, path, false, Const(v)), Replace(d, Sel(d, path), v));
  }

  lemma RootNotSelected(d: JSON, path: seq<Selector>)
    requires path != [] && !path[0].List? && !path[0].Recurse?
    ensures [] !in Sel(d, path)
  {
  }

  lemma {:induction false} ReplacesSelectedByList(d: JSON, l: seq<Selector>, rest: seq<Selector>, v: JSON)
    requires Fits(l, v) && Fits(rest, v)
    ensures ApplyList(d, l, rest, false, Const(v)) == Replace(d, SelByList(d, l, rest), v)
    decreases Descent(d, Shallow(l) && Shallow(rest)), Weight(l) + Weight(rest), 1
  {
    hide Apply, ApplyList, Replace, Height, Sel, SelByList;
    ListStep(d, l, rest, false, Const(v));
    SelByListStep(d, l, rest);
    if l == [] {
      ReplaceNothing(d, v);
    } else {
      WeightOfPath(l[0], rest);
      var path := [l[0]] + rest;
      ReplacesSelected(d, path, v);
      var d1 := Apply(d, path, false, Const(v));
      ReplacesSelectedByList(d1, l[1..], rest, v);
      SelByListAfter(d, Sel(d, path), v, l[1..], rest);
      if !IsScalar(v) {
        ListIsClear(d, d1, l, rest);
      }
      ReplaceTwice(d, Sel(d, path), SelByList(d, l[1..], rest), SelByList(d1, l[1..], rest), v);
    }
  }

  lemma SelByListStep(d: JSON, l: seq<Selector>, rest: seq<Selector>)
    ensures l == [] ==> SelByList(d, l, rest) == iset{}
    ensures l != [] ==> SelByList(d, l, rest) == Sel(d, [l[0]] + rest) + SelByList(d, l[1..], rest)
  {
    hide Selected;
  }

  lemma SelByListAfter(d: JSON, s: iset<Place>, v: JSON, l: seq<Selector>, rest: seq<Selector>)
    ensures Agree(s, SelByList(d, l, rest), SelByList(Replace(d, s, v), l, rest))
  {
    forall p: Place | !Under(s, p)
      ensures p in SelByList(Replace(d, s, v), l, rest) <==> p in SelByList(d, l, rest)
    {
      SelectedByListAfterReplace(d, s, v, l, rest, p);
    }
  }

  lemma SelBelowAfter(d: JSON, s: iset<Place>, v: JSON, path: seq<Selector>)
    ensures Agree(s, SelBelow(d, path), SelBelow(Replace(d, s, v), path))
  {
    forall p: Place | !Under(s, p)
      ensures p in SelBelow(Replace(d, s, v), path) <==> p in SelBelow(d, path)
    {
      SelectedBelowAfterReplace(d, s, v, path, p);
    }
  }

  /** All descendants: first here, then within the children of what that leaves. */
  lemma {:induction false} ReplacesBelow(d: JSON, path: seq<Selector>, v: JSON)
    requires IsScalar(v) && path != [] && path[0].Recurse?
    requires Apply(d, path[1..], false, Const(v)) == Replace(d, Sel(d, path[1..]), v)
    ensures ApplyToChildren(Apply(d, path[1..], false, Const(v)), path, Const(v)) == Replace(d, Sel(d, path), v)
    decreases Descent(d, false), 0, 1
  {
    hide Apply, ApplyToChildren, Replace, Height, Sel, SelBelow;
    var d1 := Apply(d, path[1..], false, Const(v));
    AppliedBelow(d1, path, Const(v));
    Replaced(d1, SelBelow(d1, path), v);
    RootNotBelow(d1, path);
    forall st | HasChild(d1, st)
      ensures Child(ApplyToChildren(d1, path, Const(v)), st) == Child(Replace(d1, SelBelow(d1, path), v), st)
    {
      ChildLower(d1, st);
      BelowSelBelow(d1, path, st);
      ReplacesSelected(Child(d1, st), path, v);
    }
    SameValue(ApplyToChildren(d1, path, Const(v)), Replace(d1, SelBelow(d1, path), v));
    SelBelowAfter(d, Sel(d, path[1..]), v, path);
    ReplaceTwice(d, Sel(d, path[1..]), SelBelow(d, path), SelBelow(d1, path), v);
    SelOfRecurse(d, path);
  }

  lemma RootNotBelow(d: JSON, path: seq<Selector>)
    ensures [] !in SelBelow(d, path)
  {
  }

  lemma SelOfRecurse(d: JSON, path: seq<Selector>)
    requires path != [] && path[0].Recurse?
    ensures Sel(d, path) == Sel(d, path[1..]) + SelBelow(d, path)
  {
  }
}
