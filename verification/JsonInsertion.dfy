/**
 Applying a constant with insertion: along the leading definite selectors of a path, members that
 do not exist come into being. The evaluator first grows the value that way, in effect, and then
 replaces what the path selects in the grown value.
 */
module JsonInsertion {
  import opened Changes
  import opened JsonPath
  import opened JsonPathPrinter
  import opened JsonEval
  import opened JsonPlaces

  // ----- Definite selectors, lists included -----

  /** A name, a single index, or a list of such at every level. */
  predicate Definite(sel: Selector) {
    match sel
    case Name(_) => true
    case Slice(range) => IsDefinite(range)
    case List(l) => forall j | 0 <= j < |l| :: Definite(l[j])
    case _ => false
  }

  predicate DefiniteLists(path: seq<Selector>) {
    forall i | 0 <= i < |path| :: path[i].List? ==> Definite(path[i])
  }

  /** The parser makes only lists of names and lists of single indices. */
  lemma ProducibleIsDefinite(path: Parsed)
    requires AllProducible(path)
    ensures DefiniteLists(path)
  {
    forall i | 0 <= i < |path| && path[i].List?
      ensures Definite(path[i])
    {
      assert Producible(path[i]);
    }
  }

  predicate DefiniteSelector(sel: Selector) {
    sel.Name? || sel.List? || (sel.Slice? && IsDefinite(sel.range))
  }

  /** The names in a selector, at every level. */
  function NamesOf(sel: Selector): set<string> {
    match sel
    case Name(name) => {name}
    case List(l) => set j, name | 0 <= j < |l| && name in NamesOf(l[j]) :: name
    case _ => {}
  }

  /** Some range in the selector, at some level, covers the index. */
  predicate Hits(sel: Selector, len: nat, i: int)
  {
    match sel
    case Slice(range) => Covers(range, len, i)
    case List(l) => exists j :: 0 <= j < |l| && Hits(l[j], len, i)
    case _ => false
  }

  // ----- Growing -----

  ghost function Grow(d: JSON, path: seq<Selector>): JSON
    decreases |path|
  {
    if path == [] || !DefiniteSelector(path[0]) then d
    else
      match d
      case Obj(members) =>
        Obj(map k | k in members.Keys + NamesOf(path[0]) ::
            if k in NamesOf(path[0]) then Grow(Member(d, k), path[1..]) else members[k])
      case Arr(elts) =>
        Arr(seq(|elts|, i requires 0 <= i < |elts| =>
                  if Hits(path[0], |elts|, i) then Grow(elts[i], path[1..]) else elts[i]))
      case _ => d
  }

  lemma {:induction false} GrowIdempotent(d: JSON, path: seq<Selector>)
    ensures Grow(Grow(d, path), path) == Grow(d, path)
    decreases |path|
  {
    if path == [] || !DefiniteSelector(path[0]) {
      return;
    }
    var g := Grow(d, path);
    match d {
      case Obj(members) =>
        forall k | k in NamesOf(path[0])
          ensures Grow(g.members[k], path[1..]) == g.members[k]
        {
          GrowIdempotent(Member(d, k), path[1..]);
        }
        assert Grow(g, path).members == g.members;
      case Arr(elts) =>
        forall i | 0 <= i < |elts| && Hits(path[0], |elts|, i)
          ensures Grow(g.elts[i], path[1..]) == g.elts[i]
        {
          GrowIdempotent(elts[i], path[1..]);
        }
        assert Grow(g, path).elts == g.elts;
      case _ =>
    }
  }

  /** The places are at least that far down. */
  ghost predicate Deep(s: iset<Place>, n: nat) {
    forall p | p in s :: |p| >= n
  }

  lemma DeepBelow(s: iset<Place>, st: Step, n: nat)
    requires Deep(s, n) && n > 0
    ensures Deep(Below(s, st), n - 1)
  {
    forall p | p in Below(s, st)
      ensures |p| >= n - 1
    {
      assert [st] + p in s;
    }
  }

  /**
   A value that is grown already stays so when places in it are replaced; by a container, only if the
   path does not go further down than the places.
   */
  lemma {:induction false} GrownAfterReplace(g: JSON, s: iset<Place>, v: JSON, path: seq<Selector>)
    requires Grow(g, path) == g && (IsScalar(v) || Deep(s, |path|))
    ensures Grow(Replace(g, s, v), path) == Replace(g, s, v)
    decreases |path|, 1
  {
    if path == [] || !DefiniteSelector(path[0]) || [] in s {
      return;
    }
    match g {
      case Obj(_) => GrownMembersAfter(g, s, v, path);
      case Arr(_) => GrownElementsAfter(g, s, v, path);
      case _ =>
    }
  }

  lemma {:induction false} GrownMembersAfter(g: JSON, s: iset<Place>, v: JSON, path: seq<Selector>)
    requires Grow(g, path) == g && (IsScalar(v) || Deep(s, |path|))
    requires path != [] && DefiniteSelector(path[0]) && [] !in s && g.Obj?
    ensures Grow(Replace(g, s, v), path) == Replace(g, s, v)
    decreases |path|, 0
  {
    hide Deep, Below, DefiniteSelector;
    var r := Replace(g, s, v);
    forall k | k in NamesOf(path[0])
      ensures k in g.members && Grow(r.members[k], path[1..]) == r.members[k]
    {
      assert k in Grow(g, path).members;
      assert Grow(g.members[k], path[1..]) == g.members[k];
      if !IsScalar(v) {
        DeepBelow(s, Key(k), |path|);
      }
      GrownAfterReplace(g.members[k], Below(s, Key(k)), v, path[1..]);
    }
    hide NamesOf;
    assert Grow(r, path).members == r.members;
  }

  lemma {:induction false} GrownElementsAfter(g: JSON, s: iset<Place>, v: JSON, path: seq<Selector>)
    requires Grow(g, path) == g && (IsScalar(v) || Deep(s, |path|))
    requires path != [] && DefiniteSelector(path[0]) && [] !in s && g.Arr?
    ensures Grow(Replace(g, s, v), path) == Replace(g, s, v)
    decreases |path|, 0
  {
    hide Deep, Below, DefiniteSelector, Hits;
    var r := Replace(g, s, v);
    forall i | 0 <= i < |g.elts| && Hits(path[0], |g.elts|, i)
      ensures Grow(r.elts[i], path[1..]) == r.elts[i]
    {
      assert Grow(g, path).elts[i] == g.elts[i];
      if !IsScalar(v) {
        DeepBelow(s, Index(i), |path|);
      }
      GrownAfterReplace(g.elts[i], Below(s, Index(i)), v, path[1..]);
    }
    assert Grow(r, path).elts == r.elts;
  }

  // ----- The evaluator on definite selectors -----

  ghost function Definitely(d: JSON, path: seq<Selector>, v: JSON): JSON
    requires Fits(path, v)
  {
    Apply(d, path, true, Const(v))
  }

  ghost predicate Idempotent(rest: seq<Selector>, v: JSON)
    requires Fits(rest, v)
  {
    forall c :: Definitely(Definitely(c, rest, v), rest, v) == Definitely(c, rest, v)
  }

  /** `a` is `d` with the rest of the path applied to what the selector names, present or not, or hits. */
  ghost predicate AppliedTo(d: JSON, a: JSON, sel: Selector, rest: seq<Selector>, v: JSON)
    requires Fits(rest, v)
  {
    match d
    case Obj(members) =>
      && a.Obj? && a.members.Keys == members.Keys + NamesOf(sel)
      && (forall k | k in a.members ::
           a.members[k] == if k in NamesOf(sel) then Definitely(Member(d, k), rest, v) else members[k])
    case Arr(elts) =>
      && a.Arr? && |a.elts| == |elts|
      && (forall i | 0 <= i < |elts| ::
           a.elts[i] == if Hits(sel, |elts|, i) then Definitely(elts[i], rest, v) else elts[i])
    case _ => a == d
  }

  lemma AppliedToSingle(d: JSON, sel: Selector, rest: seq<Selector>, v: JSON)
    requires Fits(rest, v) && (sel.Name? || (sel.Slice? && IsDefinite(sel.range)))
    ensures AppliedTo(d, Definitely(d, [sel] + rest, v), sel, rest, v)
  {
    hide Height;
    var path := [sel] + rest;
    assert path[1..] == rest;
    AppliedToOthers(d, path, true, Const(v));
    if sel.Name? {
      AppliedToName(d, path, true, Const(v));
    }
  }

  lemma ListNames(l: seq<Selector>)
    requires l != []
    ensures NamesOf(List(l)) == NamesOf(l[0]) + NamesOf(List(l[1..]))
  {
    var m := l[1..];
    assert l == [l[0]] + m;
    forall n | n in NamesOf(List(m))
      ensures n in NamesOf(List(l))
    {
      var j :| 0 <= j < |m| && n in NamesOf(m[j]);
      assert l[j + 1] == m[j];
    }
    forall n | n in NamesOf(List(l))
      ensures n in NamesOf(l[0]) + NamesOf(List(m))
    {
      var j :| 0 <= j < |l| && n in NamesOf(l[j]);
      assert j > 0 ==> m[j - 1] == l[j];
    }
  }

  lemma ListHits(l: seq<Selector>, len: nat, i: int)
    requires l != []
    ensures Hits(List(l), len, i) <==> Hits(l[0], len, i) || Hits(List(l[1..]), len, i)
  {
    hide Covers;
    var m := l[1..];
    assert l == [l[0]] + m;
    if Hits(List(m), len, i) {
      var j :| 0 <= j < |m| && Hits(m[j], len, i);
      assert l[j + 1] == m[j];
    }
    if Hits(List(l), len, i) {
      var j :| 0 <= j < |l| && Hits(l[j], len, i);
      assert j > 0 ==> m[j - 1] == l[j];
    }
  }

  lemma AppliedInTurn(d: JSON, d1: JSON, a: JSON, l: seq<Selector>, rest: seq<Selector>, v: JSON)
    requires l != [] && Fits(rest, v) && Idempotent(rest, v)
    requires AppliedTo(d, d1, l[0], rest, v) && AppliedTo(d1, a, List(l[1..]), rest, v)
    ensures AppliedTo(d, a, List(l), rest, v)
  {
    hide Definitely, NamesOf, Hits;
    ListNames(l);
    if d.Arr? {
      forall i {
        ListHits(l, |d.elts|, i);
      }
    }
  }

  lemma {:induction false} AppliedToList(d: JSON, l: seq<Selector>, rest: seq<Selector>, v: JSON)
    requires Fits(rest, v) && Idempotent(rest, v) && Definite(List(l))
    ensures Fits(l, v) && AppliedTo(d, ApplyList(d, l, rest, true, Const(v)), List(l), rest, v)
    decreases Weight(l)
  {
    hide Apply, ApplyList, Height, Idempotent;
    DefiniteIsShallow(List(l));
    ListStep(d, l, rest, true, Const(v));
    if l != [] {
      hide AppliedTo;
      assert Definite(l[0]) && Definite(List(l[1..])) && Weight(l) == WeightOf(l[0]) + Weight(l[1..]);
      AppliedToMember(d, l[0], rest, v);
      var d1 := Definitely(d, [l[0]] + rest, v);
      AppliedToList(d1, l[1..], rest, v);
      AppliedInTurn(d, d1, ApplyList(d1, l[1..], rest, true, Const(v)), l, rest, v);
    }
  }

  lemma {:induction false} DefiniteIsShallow(sel: Selector)
    requires Definite(sel)
    ensures ShallowSelector(sel)
    decreases sel
  {
    if sel.List? {
      forall j | 0 <= j < |sel.list|
        ensures ShallowSelector(sel.list[j])
      {
        DefiniteIsShallow(sel.list[j]);
      }
    }
  }

  lemma {:induction false} AppliedToMember(d: JSON, sel: Selector, rest: seq<Selector>, v: JSON)
    requires Fits(rest, v) && Idempotent(rest, v) && Definite(sel)
    ensures Fits([sel] + rest, v) && AppliedTo(d, Definitely(d, [sel] + rest, v), sel, rest, v)
    decreases WeightOf(sel), 0
  {
    hide Apply, ApplyList, Height, Idempotent, AppliedTo;
    DefiniteIsShallow(sel);
    var path := [sel] + rest;
    assert path[1..] == rest;
    if sel.List? {
      AppliedToOthers(d, path, true, Const(v));
      AppliedToList(d, sel.list, rest, v);
    } else {
      AppliedToSingle(d, sel, rest, v);
    }
  }

  lemma AppliedToDefinite(d: JSON, path: seq<Selector>, v: JSON)
    requires DefiniteLists(path) && Fits(path, v) && path != [] && DefiniteSelector(path[0])
    requires Idempotent(path[1..], v)
    ensures AppliedTo(d, Definitely(d, path, v), path[0], path[1..], v)
  {
    hide Apply, Height, Idempotent, AppliedTo;
    assert path == [path[0]] + path[1..];
    AppliedToMember(d, path[0], path[1..], v);
  }

  // ----- What a definite selector selects -----

  predicate PickedBy(sel: Selector, g: JSON, st: Step)
    requires HasChild(g, st)
  {
    match st
    case Key(k) => k in NamesOf(sel)
    case Index(i) => Hits(sel, |g.elts|, i)
  }

  lemma PickedByList(l: seq<Selector>, g: JSON, st: Step)
    requires l != [] && HasChild(g, st)
    ensures PickedBy(List(l), g, st) <==> PickedBy(l[0], g, st) || PickedBy(List(l[1..]), g, st)
  {
    hide NamesOf, Hits;
    match st {
      case Key(k) => ListNames(l);
      case Index(i) => ListHits(l, |g.elts|, i);
    }
  }

  lemma {:induction false} ListSelects(g: JSON, l: seq<Selector>, rest: seq<Selector>, p: Place)
    requires Definite(List(l))
    ensures SelectedByList(g, l, rest, p) <==> SelectedBelow(g, rest, p) && PickedBy(List(l), g, p[0])
    decreases Weight(l)
  {
    hide Selected, PickedBy;
    if l == [] {
      NothingPicked(g, p);
      return;
    }
    assert Definite(l[0]) && Definite(List(l[1..])) && Weight(l) == WeightOf(l[0]) + Weight(l[1..]);
    MemberSelects(g, l[0], rest, p);
    ListSelects(g, l[1..], rest, p);
    if p != [] && HasChild(g, p[0]) {
      PickedByList(l, g, p[0]);
    }
  }

  lemma NothingPicked(g: JSON, p: Place)
    ensures p != [] && HasChild(g, p[0]) ==> !PickedBy(List([]), g, p[0])
  {
  }

  lemma {:induction false} MemberSelects(g: JSON, sel: Selector, rest: seq<Selector>, p: Place)
    requires Definite(sel)
    ensures Selected(g, [sel] + rest, p) <==> SelectedBelow(g, rest, p) && PickedBy(sel, g, p[0])
    decreases WeightOf(sel), 0
  {
    hide Selected, SelectedByList;
    var path := [sel] + rest;
    assert path[1..] == rest;
    SelectedIs(g, path, p);
    if sel.List? {
      ListSelects(g, sel.list, rest, p);
    }
  }

  lemma DefiniteSelects(g: JSON, path: seq<Selector>, p: Place)
    requires DefiniteLists(path) && path != [] && DefiniteSelector(path[0])
    ensures Selected(g, path, p) <==> SelectedBelow(g, path[1..], p) && PickedBy(path[0], g, p[0])
  {
    hide Selected;
    assert path == [path[0]] + path[1..];
    MemberSelects(g, path[0], path[1..], p);
  }

  lemma SelBelowDefinite(g: JSON, path: seq<Selector>, st: Step)
    requires DefiniteLists(path) && path != [] && DefiniteSelector(path[0]) && HasChild(g, st)
    ensures Below(Sel(g, path), st) == if PickedBy(path[0], g, st) then Sel(Child(g, st), path[1..]) else iset{}
  {
    hide Selected, PickedBy, DefiniteLists, DefiniteSelector;
    forall p: Place
      ensures p in Below(Sel(g, path), st) <==> PickedBy(path[0], g, st) && Selected(Child(g, st), path[1..], p)
    {
      DefiniteSelects(g, path, [st] + p);
      assert ([st] + p)[0] == st && ([st] + p)[1..] == p;
    }
  }

  lemma RootNotDefinite(g: JSON, path: seq<Selector>)
    requires DefiniteLists(path) && path != [] && DefiniteSelector(path[0])
    ensures [] !in Sel(g, path)
  {
    DefiniteSelects(g, path, []);
  }

  lemma NotDefinite(d: JSON, path: seq<Selector>, fn: JSON -> JSON)
    requires Grounded(path, fn) && path != [] && !DefiniteSelector(path[0])
    ensures Apply(d, path, true, fn) == Apply(d, path, false, fn)
  {
    hide Height;
  }

  /** Each child of the grown value, after replacement, is what the evaluator makes of that child. */
  lemma GrownChild(d: JSON, path: seq<Selector>, v: JSON, st: Step)
    requires DefiniteLists(path) && Fits(path, v) && path != [] && DefiniteSelector(path[0])
    requires AppliedTo(d, Definitely(d, path, v), path[0], path[1..], v)
    requires HasChild(Grow(d, path), st)
    requires forall c ::
               Definitely(c, path[1..], v) == Replace(Grow(c, path[1..]), Sel(Grow(c, path[1..]), path[1..]), v)
    ensures HasChild(Definitely(d, path, v), st)
    ensures Child(Definitely(d, path, v), st) ==
            Replace(Child(Grow(d, path), st), Below(Sel(Grow(d, path), path), st), v)
  {
    hide Definitely, Sel, Replace, Below, DefiniteLists, Height, Hits;
    var g := Grow(d, path);
    SelBelowDefinite(g, path, st);
    if !PickedBy(path[0], g, st) {
      ReplaceNothing(Child(g, st), v);
    }
  }

  /** Given what the evaluator makes of a path, doing it again changes nothing. */
  lemma AgainIsTheSame(rest: seq<Selector>, v: JSON)
    requires Fits(rest, v)
    requires forall c :: Definitely(c, rest, v) == Replace(Grow(c, rest), Sel(Grow(c, rest), rest), v)
    ensures Idempotent(rest, v)
  {
    hide Definitely, Replace, Sel, Grow;
    forall c
      ensures Definitely(Definitely(c, rest, v), rest, v) == Definitely(c, rest, v)
    {
      var g := Grow(c, rest);
      var s := Sel(g, rest);
      GrowIdempotent(c, rest);
      if !IsScalar(v) {
        SelIsDeep(g, rest);
      }
      GrownAfterReplace(g, s, v, rest);
      SelAfter(g, s, v, rest);
      if !IsScalar(v) {
        SelIsClear(g, Replace(g, s, v), rest);
      }
      ReplaceTwice(g, s, s, Sel(Replace(g, s, v), rest), v);
      assert s + s == s;
    }
  }

  lemma SelIsDeep(d: JSON, path: seq<Selector>)
    requires Shallow(path)
    ensures forall p | p in Sel(d, path) :: |p| == |path|
  {
    hide Selected;
    forall p | p in Sel(d, path)
      ensures |p| == |path|
    {
      SelectedDepth(d, path, p);
    }
  }

  lemma SelIsClear(d: JSON, d1: JSON, path: seq<Selector>)
    requires Shallow(path)
    ensures Clear(Sel(d, path), Sel(d1, path))
  {
    hide Sel;
    SelIsDeep(d, path);
    SelIsDeep(d1, path);
  }

  lemma SelAfter(d: JSON, s: iset<Place>, v: JSON, path: seq<Selector>)
    ensures Agree(s, Sel(d, path), Sel(Replace(d, s, v), path))
  {
    forall p: Place | !Under(s, p)
      ensures p in Sel(Replace(d, s, v), path) <==> p in Sel(d, path)
    {
      SelectedAfterReplace(d, s, v, path, p);
    }
  }

  /**
   Applying a constant with insertion: the value grows along the leading definite selectors, and
   then exactly the places that the path selects in the grown value are replaced.
   */
  lemma {:induction false} GrowsAndReplaces(d: JSON, path: seq<Selector>, v: JSON)
    requires DefiniteLists(path) && Fits(path, v)
    ensures Definitely(d, path, v) == Replace(Grow(d, path), Sel(Grow(d, path), path), v)
    decreases |path|
  {
    hide Apply, Replace, Sel, Height, AppliedTo;
    var g := Grow(d, path);
    if path == [] {
      AppliedToOthers(d, path, true, Const(v));
      RootSelected(d);
      Replaced(d, Sel(d, path), v);
    } else if !DefiniteSelector(path[0]) {
      NotDefinite(d, path, Const(v));
      ReplacesSelected(d, path, v);
    } else {
      var rest := path[1..];
      forall c
        ensures Definitely(c, rest, v) == Replace(Grow(c, rest), Sel(Grow(c, rest), rest), v)
      {
        GrowsAndReplaces(c, rest, v);
      }
      AgainIsTheSame(rest, v);
      AppliedToDefinite(d, path, v);
      GrownShape(d, path, v);
      hide Grow, Definitely;
      RootNotDefinite(g, path);
      Replaced(g, Sel(g, path), v);
      forall st | HasChild(g, st)
        ensures HasChild(Definitely(d, path, v), st)
                && Child(Definitely(d, path, v), st) == Child(Replace(g, Sel(g, path), v), st)
      {
        GrownChild(d, path, v, st);
      }
      SameChildren(g, Definitely(d, path, v));
      SameValue(Definitely(d, path, v), Replace(g, Sel(g, path), v));
    }
  }

  lemma GrownShape(d: JSON, path: seq<Selector>, v: JSON)
    requires Fits(path, v) && path != [] && DefiniteSelector(path[0])
    requires AppliedTo(d, Definitely(d, path, v), path[0], path[1..], v)
    ensures SameShape(Grow(d, path), Definitely(d, path, v))
  {
    hide Definitely;
  }

  /** Doing it again changes nothing. */
  lemma ApplyingAgain(d: JSON, path: seq<Selector>, v: JSON)
    requires DefiniteLists(path) && Fits(path, v)
    ensures Definitely(Definitely(d, path, v), path, v) == Definitely(d, path, v)
  {
    hide Definitely, Replace, Sel, Grow, DefiniteLists;
    forall c
      ensures Definitely(c, path, v) == Replace(Grow(c, path), Sel(Grow(c, path), path), v)
    {
      GrowsAndReplaces(c, path, v);
    }
    AgainIsTheSame(path, v);
  }

  // ----- Place by place -----

  function ValueAt(d: JSON, p: Place): Option<JSON> {
    if p == [] then Some(d) else if HasChild(d, p[0]) then ValueAt(Child(d, p[0]), p[1..]) else None
  }

  /** The replacement stands at every chosen place that has no other above it. */
  lemma {:induction false} ReplacedThere(d: JSON, s: iset<Place>, v: JSON, p: Place)
    requires p in s && !Under(s, p) && ValueAt(d, p).Some?
    ensures ValueAt(Replace(d, s, v), p) == Some(v)
    decreases |p|
  {
    Replaced(d, s, v);
    if p != [] {
      assert p == [p[0]] + p[1..];
      UnderStep(s, p[0], p[1..]);
      ReplacedThere(Child(d, p[0]), Below(s, p[0]), v, p[1..]);
    }
  }

  /** Elsewhere, neither above nor below a chosen place, nothing changes. */
  lemma {:induction false} UnchangedElsewhere(d: JSON, s: iset<Place>, v: JSON, p: Place)
    requires forall q | q in s :: !(q <= p) && !(p <= q)
    ensures ValueAt(Replace(d, s, v), p) == ValueAt(d, p)
    decreases |p|
  {
    Replaced(d, s, v);
    assert [] !in s;
    if p == [] {
      assert s == iset{};
      ReplaceNothing(d, v);
    } else {
      SameChildren(d, Replace(d, s, v));
      if HasChild(d, p[0]) {
        forall q | q in Below(s, p[0])
          ensures !(q <= p[1..]) && !(p[1..] <= q)
        {
          assert [p[0]] + q in s && p == [p[0]] + p[1..];
        }
        UnchangedElsewhere(Child(d, p[0]), Below(s, p[0]), v, p[1..]);
      }
    }
  }

  /** Growing takes no place away. */
  lemma {:induction false} GrowKeeps(d: JSON, path: seq<Selector>, p: Place)
    requires ValueAt(d, p).Some?
    ensures ValueAt(Grow(d, path), p).Some?
    ensures IsScalar(ValueAt(d, p).value) ==> ValueAt(Grow(d, path), p) == ValueAt(d, p)
    decreases |path|
  {
    if path == [] || !DefiniteSelector(path[0]) || p == [] {
      return;
    }
    GrowKeeps(Child(d, p[0]), path[1..], p[1..]);
  }

  /** The selector picks the step, at a value that has no such member yet, or has it, or is an array of this length. */
  predicate OnTheWay(sel: Selector, here: JSON, st: Step) {
    DefiniteSelector(sel) &&
    match st
    case Key(k) => here.Obj? && k in NamesOf(sel)
    case Index(i) => here.Arr? && 0 <= i < |here.elts| && Hits(sel, |here.elts|, i)
  }

  /** Every step of the place is on the way that the path goes with definite selectors. */
  ghost predicate AlongPath(d: JSON, path: seq<Selector>, p: Place)
    decreases |p|
  {
    p == [] ||
    (path != [] && OnTheWay(path[0], d, p[0]) && (HasChild(d, p[0]) ==> AlongPath(Child(d, p[0]), path[1..], p[1..])))
  }

  /** A new place is a null member, and lies on the definite beginning of the path. */
  lemma {:induction false} GrowAdds(d: JSON, path: seq<Selector>, p: Place)
    requires ValueAt(d, p).None? && ValueAt(Grow(d, path), p).Some?
    ensures 0 < |p| <= |path| && p[|p| - 1].Key? && ValueAt(Grow(d, path), p) == Some(Null)
    ensures forall i | 0 <= i < |p| :: ValueAt(d, p[..i]).Some? && OnTheWay(path[i], ValueAt(d, p[..i]).value, p[i])
    decreases |path|
  {
    assert path != [] && DefiniteSelector(path[0]);
    var st, g := p[0], Grow(d, path);
    if HasChild(d, st) {
      GrowAdds(Child(d, st), path[1..], p[1..]);
      forall i | 0 <= i < |p|
        ensures ValueAt(d, p[..i]).Some? && OnTheWay(path[i], ValueAt(d, p[..i]).value, p[i])
      {
        if i > 0 {
          assert p[..i][1..] == p[1..][..i - 1] && p[1..][i - 1] == p[i] && path[1..][i - 1] == path[i];
        }
      }
    } else {
      assert st.Key? && st.key in NamesOf(path[0]);
      assert Child(g, st) == Grow(Null, path[1..]) == Null;
      assert p[1..] == [];
    }
  }

  /** Off the definite beginning of the path growing changes nothing. */
  lemma {:induction false} GrowLeavesOthers(d: JSON, path: seq<Selector>, p: Place)
    requires !AlongPath(d, path, p)
    ensures ValueAt(Grow(d, path), p) == ValueAt(d, p)
    decreases |p|
  {
    if path != [] && DefiniteSelector(path[0]) && HasChild(d, p[0]) && OnTheWay(path[0], d, p[0]) {
      GrowLeavesOthers(Child(d, p[0]), path[1..], p[1..]);
    }
  }

  lemma {:induction false} SelectedExists(d: JSON, path: seq<Selector>, p: Place)
    requires Selected(d, path, p)
    ensures ValueAt(d, p).Some?
    decreases |p|, Weight(path), 0
  {
    if path == [] {
      return;
    }
    hide Selected, SelectedByList, ValueAt;
    assert Weight(path) == WeightOf(path[0]) + Weight(path[1..]);
    SelectedIs(d, path, p);
    if path[0].List? {
      SelectedByListExists(d, path[0].list, path[1..], p);
    } else if path[0].Recurse? && Selected(d, path[1..], p) {
      SelectedExists(d, path[1..], p);
    } else {
      var next := if path[0].Recurse? then path else path[1..];
      SelectedExists(Child(d, p[0]), next, p[1..]);
      ValueBelow(d, p);
    }
  }

  lemma ValueBelow(d: JSON, p: Place)
    requires p != [] && HasChild(d, p[0])
    ensures ValueAt(d, p) == ValueAt(Child(d, p[0]), p[1..])
  {
  }

  lemma {:induction false} SelectedByListExists(d: JSON, l: seq<Selector>, rest: seq<Selector>, p: Place)
    requires SelectedByList(d, l, rest, p)
    ensures ValueAt(d, p).Some?
    decreases |p|, Weight(l) + Weight(rest), 1
  {
    WeightOfPath(l[0], rest);
    if Selected(d, [l[0]] + rest, p) {
      SelectedExists(d, [l[0]] + rest, p);
    } else {
      SelectedByListExists(d, l[1..], rest, p);
    }
  }

  /** After the evaluation the constant stands at every selected place that is not below another. */
  lemma ConstantThere(d: JSON, path: seq<Selector>, v: JSON, p: Place)
    requires DefiniteLists(path) && Fits(path, v)
    requires p in Sel(Grow(d, path), path) && !Under(Sel(Grow(d, path), path), p)
    ensures ValueAt(Definitely(d, path, v), p) == Some(v)
  {
    GrowsAndReplaces(d, path, v);
    SelectedExists(Grow(d, path), path, p);
    ReplacedThere(Grow(d, path), Sel(Grow(d, path), path), v, p);
  }

  /** A place that is neither above nor below a selected one is as in the grown value. */
  lemma OthersUnchanged(d: JSON, path: seq<Selector>, v: JSON, p: Place)
    requires DefiniteLists(path) && Fits(path, v)
    requires forall q | q in Sel(Grow(d, path), path) :: !(q <= p) && !(p <= q)
    ensures ValueAt(Definitely(d, path, v), p) == ValueAt(Grow(d, path), p)
    ensures !AlongPath(d, path, p) ==> ValueAt(Definitely(d, path, v), p) == ValueAt(d, p)
  {
    GrowsAndReplaces(d, path, v);
    UnchangedElsewhere(Grow(d, path), Sel(Grow(d, path), path), v, p);
    if !AlongPath(d, path, p) {
      GrowLeavesOthers(d, path, p);
    }
  }

  // ----- Parsed paths -----

  /** Whatever is parsed: with and without insertion, the evaluator does what is said. */
  lemma ParsedPathsApply(out: Outside, text: string, path: Parsed, d: JSON, v: JSON)
    requires ParseTop(out, text) == Some(path) && Fits(path, v)
    ensures Apply(d, path, false, Const(v)) == Replace(d, Sel(d, path), v)
    ensures Apply(d, path, true, Const(v)) == Replace(Grow(d, path), Sel(Grow(d, path), path), v)
  {
    hide ParseAll, Lex, Replace, Sel, Grow, Apply;
    ParsedIsProducible(out, Lex(out, text).1, false);
    ProducibleIsDefinite(path);
    ReplacesSelected(d, path, v);
    GrowsAndReplaces(d, path, v);
  }

  /** Some texts spell ranges on which the evaluator runs forever, or off the slice. */
  lemma SomeTextsDoNotComplete(out: Outside)
    ensures exists text :: ParseTop(out, text) == Some([Slice(Range(0, Some(1), 0))])
    ensures exists text :: ParseTop(out, text) == Some([Slice(Range(1, Some(2), MAX_INT64))])
    ensures forall x, v :: !Completes(Arr([x]), [Slice(Range(0, Some(1), 0))], false, Const(v))
    ensures forall x, y, v ::
              !Completes(Arr([x, y]), [Slice(Range(1, Some(2), MAX_INT64))], false, Const(v))
  {
    hide ParseTop, Completes;
    ReadTopSlice(out, Range(0, Some(1), 0));
    ReadTopSlice(out, Range(1, Some(2), MAX_INT64));
    forall x, v
      ensures !Completes(Arr([x]), [Slice(Range(0, Some(1), 0))], false, Const(v))
    {
      RangeFails(Arr([x]), [Slice(Range(0, Some(1), 0))], false, Const(v), 0);
    }
    forall x, y, v
      ensures !Completes(Arr([x, y]), [Slice(Range(1, Some(2), MAX_INT64))], false, Const(v))
    {
      CoveredIndex(Range(1, Some(2), MAX_INT64), 2, 1);
      RangeFails(Arr([x, y]), [Slice(Range(1, Some(2), MAX_INT64))], false, Const(v), 1);
    }
  }

  lemma ReadTopSlice(out: Outside, r: Range)
    requires ProducibleRange(r)
    ensures exists text :: ParseTop(out, text) == Some([Slice(r)])
  {
    hide Lex, ParseOne, Print, IdentifierPart, ProducibleRange;
    var text := Print(out, Slice(r));
    PrintsStart(out, Slice(r));
    BracketEndsName(out, text);
    LexIdentifier(out, "$", text);
    ReadSlice(out, r, "", false);
    assert text + "" == text;
    assert ParseAll(out, "", false) == Some([]) && [Slice(r)] + [] == [Slice(r)];
    assert ParseAll(out, text, false) == Some([Slice(r)]);
    assert ParseTop(out, "$" + text) == Some([Slice(r)]);
  }

  lemma BracketEndsName(out: Outside, text: string)
    requires text != "" && text[0] in ".["
    ensures !IdentifierPart(out, text[0])
  {
  }

  // ----- Lists with a double dot -----

  /**
   With a list that has a double dot among its members, which the parser never makes, insertion in
   turn differs from insertion first: the null member that the second member of the list brings in is
   what the first would have selected.
   */
  lemma NotForAllLists(name: string, v: JSON)
    requires IsScalar(v) && v != Null
    ensures var path := [List([Recurse, Name(name)]), Name(name)];
            var g := Grow(Obj(map[]), path);
            && Definitely(Obj(map[]), path, v) == Obj(map[name := Null])
            && Replace(g, Sel(g, path), v) == Obj(map[name := v])
  {
    var empty, rest := Obj(map[]), [Name(name)];
    var l := [Recurse, Name(name)];
    var path, fn := [List(l)] + rest, Const(v);
    NothingInEmpty(empty, rest, name, v);
    InsertsNull(empty, rest, name, v);
    GrownAndSelected(path, name, v);
    assert path[1..] == rest && l[1..] == [Name(name)] && l[1..][1..] == [];
    AppliedToOthers(empty, path, true, fn);
    ListStep(empty, l, rest, true, fn);
    ListStep(empty, l[1..], rest, true, fn);
    ListStep(Obj(map[name := Null]), [], rest, true, fn);
    assert path == [List([Recurse, Name(name)]), Name(name)];
  }

  lemma NothingInEmpty(empty: JSON, rest: seq<Selector>, name: string, v: JSON)
    requires empty == Obj(map[]) && rest == [Name(name)] && IsScalar(v)
    ensures Apply(empty, [Recurse] + rest, true, Const(v)) == empty
  {
    var path, fn := [Recurse] + rest, Const(v);
    assert path[1..] == rest;
    AppliedToOthers(empty, path, true, fn);
    AppliedToName(empty, rest, false, fn);
    AppliedToMembers(empty, path, fn, map[]);
  }

  lemma InsertsNull(empty: JSON, rest: seq<Selector>, name: string, v: JSON)
    requires empty == Obj(map[]) && rest == [Name(name)] && IsScalar(v)
    ensures Apply(empty, [Name(name)] + rest, true, Const(v)) == Obj(map[name := Null])
  {
    var path := [Name(name)] + rest;
    assert path[1..] == rest;
    AppliedToName(empty, path, true, Const(v));
    AppliedToName(Null, rest, true, Const(v));
  }

  lemma GrownAndSelected(path: seq<Selector>, name: string, v: JSON)
    requires path == [List([Recurse, Name(name)]), Name(name)] && IsScalar(v)
    ensures Grow(Obj(map[]), path) == Obj(map[name := Null])
    ensures Replace(Obj(map[name := Null]), Sel(Obj(map[name := Null]), path), v) == Obj(map[name := v])
  {
    hide Grow, Sel;
    EmptyGrows(path, name);
    var g := Obj(map[name := Null]);
    var s := Sel(g, path);
    NullSelected(path, name, g);
    assert [] in Below(s, Key(name)) by {
      assert [Key(name)] + [] == [Key(name)];
    }
    assert Replace(g, s, v).members == map[name := v];
  }

  lemma EmptyGrows(path: seq<Selector>, name: string)
    requires path == [List([Recurse, Name(name)]), Name(name)]
    ensures Grow(Obj(map[]), path) == Obj(map[name := Null])
  {
    var l := [Recurse, Name(name)];
    assert path[1..] == [Name(name)];
    assert NamesOf(List(l)) == {name} by {
      ListNames(l);
      ListNames(l[1..]);
      assert NamesOf(List([])) == {} && l[1..][1..] == [];
    }
    hide NamesOf;
    assert Grow(Obj(map[]), path).members == map[name := Null];
  }

  lemma NullSelected(path: seq<Selector>, name: string, g: JSON)
    requires path == [List([Recurse, Name(name)]), Name(name)] && g == Obj(map[name := Null])
    ensures [Key(name)] in Sel(g, path) && [] !in Sel(g, path)
  {
    var l, rest, here := [Recurse, Name(name)], [Name(name)], [Key(name)];
    assert path == [List(l)] + rest;
    assert Selected(g, rest, here) by {
      assert rest[1..] == [] && here[1..] == [];
    }
    assert Selected(g, [Recurse] + rest, here) by {
      assert ([Recurse] + rest)[1..] == rest;
    }
    assert SelectedByList(g, l, rest, here);
    assert path[1..] == rest;
    RootNotInList(g, l, rest, name);
  }

  lemma RootNotInList(g: JSON, l: seq<Selector>, rest: seq<Selector>, name: string)
    requires l == [Recurse, Name(name)] && rest == [Name(name)]
    ensures [] !in Sel(g, [List(l)] + rest)
  {
    var root: Place := [];
    var path := [List(l)] + rest;
    assert path[1..] == rest && l[1..] == [Name(name)] && l[1..][1..] == [];
    assert ([Recurse] + rest)[1..] == rest;
    SelectedIs(g, path, root);
    SelectedIs(g, rest, root);
    SelectedIs(g, [Recurse] + rest, root);
    SelectedIs(g, [Name(name)] + rest, root);
    assert !SelectedByList(g, l[1..], rest, root);
  }
}
