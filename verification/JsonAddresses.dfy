/**
 Paths of names and single indices, such as `$.containers.0.env.0.value` (pkg/jsonpath): each leads to one place.
 What the evaluator does on them is what a direct definition says, from the text on.
 */
module JsonAddresses {
  import opened Changes
  import opened JsonPath
  import opened JsonPathPrinter
  import opened JsonTokens
  import opened JsonEval
  import opened JsonPlaces
  import opened JsonInsertion
  import opened JsonCompletion

  /** The keys are names, and the indices are such that the one after it fits in 64 bits too. */
  predicate Address(out: Outside, p: Place) {
    forall j | 0 <= j < |p| :: AddressStep(out, p[j])
  }

  predicate AddressStep(out: Outside, st: Step) {
    match st
    case Key(k) => NameText(out, k)
    case Index(i) => 0 <= i < 9223372036854775807
  }

  function TextTo(p: Place): string
    requires forall j | 0 <= j < |p| && p[j].Index? :: p[j].index >= 0
  {
    if p == [] then ""
    else "." + ((if p[0].Key? then p[0].key else Digits(p[0].index)) + TextTo(p[1..]))
  }

  function SelectorTo(st: Step): Selector
    requires st.Index? ==> 0 <= st.index < 9223372036854775807
  {
    if st.Key? then Name(st.key) else Slice(Range(st.index, Some(st.index + 1), 1))
  }

  function PathTo(p: Place): (path: seq<Selector>)
    requires forall j | 0 <= j < |p| && p[j].Index? :: 0 <= p[j].index < 9223372036854775807
    ensures |path| == |p| && Shallow(path)
  {
    if p == [] then [] else [SelectorTo(p[0])] + PathTo(p[1..])
  }

  // ----- The text -----

  lemma TextStart(out: Outside, p: Place)
    requires Address(out, p)
    ensures TextTo(p) == "" || TextTo(p)[0] == '.'
    ensures EndsNumber(TextTo(p))
    ensures TextTo(p) != "" ==> !IdentifierPart(out, TextTo(p)[0])
  {
    hide Digits;
  }

  lemma {:induction false} TextParses(out: Outside, p: Place)
    requires Address(out, p)
    ensures ParseAll(out, TextTo(p), false) == Some(PathTo(p))
    decreases |p|
  {
    hide ParseOne, Digits, Lex, NameText;
    if p != [] {
      StepParses(out, p[0], p[1..]);
      TextParses(out, p[1..]);
    }
  }

  lemma StepParses(out: Outside, st: Step, more: Place)
    requires AddressStep(out, st) && Address(out, more)
    ensures ParseOne(out, "." + ((if st.Key? then st.key else Digits(st.index)) + TextTo(more)), false) ==
            Some((SelectorTo(st), TextTo(more)))
  {
    hide Lex, TextTo, Digits, EndsNumber;
    TextStart(out, more);
    var rest := TextTo(more);
    match st {
      case Key(k) =>
        IdentifierIs(out, k);
        NotADot(out, k[0]);
        LexDot(out, k + rest);
        LexIdentifier(out, k, rest);
      case Index(i) =>
        FirstDigit(i);
        LexDot(out, Digits(i) + rest);
        LexNumber(out, i, rest);
    }
  }

  lemma NotADot(out: Outside, c: char)
    requires MayStart(out, c)
    ensures c != '.'
  {
  }

  lemma FirstDigit(n: nat)
    ensures Digits(n)[0] != '.'
  {
    assert IsDigit(Digits(n)[0]);
  }

  // ----- The place -----

  /**
   The function applied at the place: a member that is not there comes in, as null before the function is applied;
   what does not fit is left alone.
   */
  function UpdateAt(d: JSON, p: Place, fn: JSON -> JSON): JSON
    decreases |p|
  {
    if p == [] then fn(d)
    else
      match p[0]
      case Key(k) =>
        if d.Obj? then Obj(d.members[k := UpdateAt(if k in d.members then d.members[k] else Null, p[1..], fn)]) else d
      case Index(i) =>
        if d.Arr? && 0 <= i < |d.elts| then Arr(d.elts[i := UpdateAt(d.elts[i], p[1..], fn)]) else d
  }

  /** The value that the place would be in is an object, or an array with that element. */
  predicate HasRoom(d: JSON, p: Place) {
    p == [] ||
    (var around := ValueAt(d, p[..|p| - 1]);
    var st := p[|p| - 1];
    around.Some? && if st.Key? then around.value.Obj? else HasChild(around.value, st))
  }

  /** The function gets there exactly if there is room. */
  lemma {:induction false} UpdateIsThere(d: JSON, p: Place, fn: JSON -> JSON)
    ensures ValueAt(UpdateAt(d, p, fn), p) ==
            if HasRoom(d, p) then Some(fn(if ValueAt(d, p).Some? then ValueAt(d, p).value else Null)) else None
    decreases |p|
  {
    if |p| >= 2 {
      var rest := p[1..];
      assert p[..|p| - 1][1..] == rest[..|rest| - 1] && rest[|rest| - 1] == p[|p| - 1];
      var c := if HasChild(d, p[0]) then Child(d, p[0]) else Null;
      UpdateIsThere(c, rest, fn);
      if !HasChild(d, p[0]) {
        NoRoomInNull(rest);
      }
    } else if |p| == 1 {
      assert p[..0] == [] && p[1..] == [];
    }
  }

  lemma NoRoomInNull(p: Place)
    requires p != []
    ensures !HasRoom(Null, p)
  {
  }

  /** Places neither above nor below are as they were. */
  lemma {:induction false} UpdateLeavesOthers(d: JSON, p: Place, fn: JSON -> JSON, q: Place)
    requires !(p <= q) && !(q <= p)
    ensures ValueAt(UpdateAt(d, p, fn), q) == ValueAt(d, q)
    decreases |p|
  {
    hide UpdateAt;
    UpdatedChild(d, p, fn, q[0]);
    if p[0] == q[0] {
      assert p == [p[0]] + p[1..] && q == [q[0]] + q[1..];
      UpdateLeavesOthers(if HasChild(d, p[0]) then Child(d, p[0]) else Null, p[1..], fn, q[1..]);
      NoneInNull(q[1..]);
    }
  }

  lemma UpdatedChild(d: JSON, p: Place, fn: JSON -> JSON, st: Step)
    requires p != []
    ensures var a := UpdateAt(d, p, fn);
            && (HasChild(d, st) ==> HasChild(a, st))
            && (st != p[0] && HasChild(a, st) ==> HasChild(d, st) && Child(a, st) == Child(d, st))
            && (st == p[0] && HasChild(a, st) ==>
                  Child(a, st) == UpdateAt(if HasChild(d, st) then Child(d, st) else Null, p[1..], fn))
  {
  }

  lemma NoneInNull(q: Place)
    ensures q != [] ==> ValueAt(Null, q).None?
  {
  }

  /** With insertion, exactly that happens; without, the same if the place is there, and nothing otherwise. */
  lemma {:induction false} UpdatesThere(out: Outside, d: JSON, p: Place, definite: bool, fn: JSON -> JSON)
    requires Address(out, p)
    ensures Apply(d, PathTo(p), definite, fn) == if definite || ValueAt(d, p).Some? then UpdateAt(d, p, fn) else d
    decreases |p|
  {
    hide Apply, Height;
    var path := PathTo(p);
    AppliedToOthers(d, path, definite, fn);
    if p != [] {
      assert path[1..] == PathTo(p[1..]);
      match p[0] {
        case Key(k) =>
          AppliedToName(d, path, definite, fn);
          if d.Obj? && (definite || k in d.members) {
            UpdatesThere(out, Member(d, k), p[1..], definite, fn);
            SameMember(d, k);
          }
        case Index(i) =>
          if d.Arr? {
            UpdatesAtIndex(d, path, definite, fn, i);
            if i < |d.elts| {
              UpdatesThere(out, d.elts[i], p[1..], definite, fn);
              assert d.elts[i := d.elts[i]] == d.elts;
            }
          }
      }
    }
  }

  lemma SameMember(d: JSON, k: string)
    requires d.Obj?
    ensures k in d.members ==> Obj(d.members[k := d.members[k]]) == d
  {
    assert k in d.members ==> d.members[k := d.members[k]] == d.members;
  }

  lemma UpdatesAtIndex(d: JSON, path: seq<Selector>, definite: bool, fn: JSON -> JSON, i: nat)
    requires d.Arr? && Shallow(path) && path != [] && i < 9223372036854775807
    requires path[0] == Slice(Range(i, Some(i + 1), 1))
    ensures Apply(d, path, definite, fn) ==
            if i < |d.elts| then Arr(d.elts[i := Apply(d.elts[i], path[1..], definite, fn)]) else d
  {
    hide Apply, Height, Completes;
    SliceApplies(d, path, definite, fn);
    var r, a := path[0].range, Apply(d, path, definite, fn);
    forall h | 0 <= h < |d.elts|
      ensures Covers(r, |d.elts|, h) <==> h == i
    {
      CoversIs(r, |d.elts|, h);
      if h == i {
        assert h == r.start + 0 * r.stride;
      }
    }
    assert i < |d.elts| ==> a.elts == d.elts[i := Apply(d.elts[i], path[1..], definite, fn)];
    assert i >= |d.elts| ==> a.elts == d.elts;
  }

  /** Without insertion, the path selects the place if it is there, and nothing else. */
  lemma {:induction false} SelectsThere(out: Outside, d: JSON, p: Place, q: Place)
    requires Address(out, p)
    ensures Selected(d, PathTo(p), q) <==> q == p && ValueAt(d, p).Some?
    decreases |p|
  {
    var path := PathTo(p);
    if p != [] {
      assert path[1..] == PathTo(p[1..]);
      SelectedIs(d, path, q);
      if q != [] && HasChild(d, q[0]) {
        StepPicks(d, p[0], q[0]);
        if q[0] == p[0] {
          SelectsThere(out, Child(d, p[0]), p[1..], q[1..]);
        }
      }
      assert q == p <==> q != [] && q[0] == p[0] && q[1..] == p[1..];
    }
  }

  lemma StepPicks(d: JSON, st: Step, st': Step)
    requires HasChild(d, st') && (st.Index? ==> 0 <= st.index < 9223372036854775807)
    ensures Picks(SelectorTo(st), d, st') <==> st' == st
  {
    if st.Index? && st'.Index? {
      CoversIs(SelectorTo(st).range, |d.elts|, st'.index);
      if st == st' {
        assert st'.index == st.index + 0 * 1;
      }
    }
  }

  // ----- Several places -----

  /** Names, ranges and stars: each leads one level down, and no two ways lead to the same place. */
  predicate Plain(path: seq<Selector>) {
    forall i | 0 <= i < |path| :: !path[i].List? && !path[i].Recurse?
  }

  /** On such a path, the function is applied once at every selected place, to what is there. */
  lemma {:induction false} AppliedOnce(d: JSON, path: seq<Selector>, fn: JSON -> JSON, p: Place)
    requires Plain(path) && Selected(d, path, p)
    ensures ValueAt(d, p).Some? && ValueAt(Apply(d, path, false, fn), p) == Some(fn(ValueAt(d, p).value))
    decreases |path|
  {
    hide Apply, Height, Picks;
    AppliedToOthers(d, path, false, fn);
    if path != [] {
      SelectedIs(d, path, p);
      AppliedOneLevel(d, path, fn);
      SameChildren(d, Apply(d, path, false, fn));
      AppliedOnce(Child(d, p[0]), path[1..], fn, p[1..]);
    }
  }

  lemma {:induction false} NothingSelected(d: JSON, path: seq<Selector>, fn: JSON -> JSON)
    requires Plain(path) && forall q :: !Selected(d, path, q)
    ensures Apply(d, path, false, fn) == d
    decreases |path|
  {
    hide Apply, Height, Picks, Selected;
    if path == [] {
      RootSelected(d);
      assert false;
    } else {
      var a := Apply(d, path, false, fn);
      AppliedOneLevel(d, path, fn);
      SameChildren(d, a);
      forall st | HasChild(a, st)
        ensures Child(a, st) == Child(d, st)
      {
        if Picks(path[0], d, st) {
          SelectedInChild(d, path, st);
          NothingSelected(Child(d, st), path[1..], fn);
        }
      }
      SameValue(a, d);
    }
  }

  lemma SelectedInChild(d: JSON, path: seq<Selector>, st: Step)
    requires Plain(path) && path != [] && HasChild(d, st) && Picks(path[0], d, st)
    ensures forall q :: Selected(Child(d, st), path[1..], q) <==> Selected(d, path, [st] + q)
  {
    hide Picks, Selected;
    forall q
      ensures Selected(Child(d, st), path[1..], q) <==> Selected(d, path, [st] + q)
    {
      SelectedIs(d, path, [st] + q);
      assert ([st] + q)[1..] == q;
    }
  }

  /** Places neither above nor below a selected one are as they were. */
  lemma {:induction false} AppliedNowhereElse(d: JSON, path: seq<Selector>, fn: JSON -> JSON, p: Place)
    requires Plain(path) && forall q | Selected(d, path, q) :: !(q <= p) && !(p <= q)
    ensures ValueAt(Apply(d, path, false, fn), p) == ValueAt(d, p)
    decreases |path|
  {
    hide Apply, Height, Picks, Selected;
    if path == [] {
      RootSelected(d);
      assert false;
    } else {
      AppliedOneLevel(d, path, fn);
      SameChildren(d, Apply(d, path, false, fn));
      if p == [] {
        assert forall q | Selected(d, path, q) :: !(p <= q);
        NothingSelected(d, path, fn);
      } else if HasChild(d, p[0]) && Picks(path[0], d, p[0]) {
        forall q | Selected(Child(d, p[0]), path[1..], q)
          ensures !(q <= p[1..]) && !(p[1..] <= q)
        {
          SelectedInChild(d, path, p[0]);
          assert p == [p[0]] + p[1..];
        }
        AppliedNowhereElse(Child(d, p[0]), path[1..], fn, p[1..]);
      }
    }
  }

  // ----- From the text on -----

  /** The evaluator gets to its end on every address. */
  lemma AddressCompletes(out: Outside, d: JSON, p: Place, definite: bool, fn: JSON -> JSON)
    requires Address(out, p)
    ensures Completes(d, PathTo(p), definite, fn)
  {
    forall place, r | ArrayAt(d, place).Some? && RangeOf(PathTo(p), r)
      ensures RangeCompletes(r, ArrayAt(d, place).value)
    {
      AddressRange(out, p, r);
    }
    EasilyCompletes(d, PathTo(p), definite, fn);
  }

  lemma {:induction false} AddressRange(out: Outside, p: Place, r: Range)
    requires Address(out, p) && RangeOf(PathTo(p), r)
    ensures 0 <= r.start < 9223372036854775807 && r == Range(r.start, Some(r.start + 1), 1)
    decreases |p|
  {
    var path := PathTo(p);
    var i :| 0 <= i < |path| && HasRange(path[i], r);
    if i > 0 {
      assert HasRange(PathTo(p[1..])[i - 1], r);
      AddressRange(out, p[1..], r);
    }
  }

  /** A text that spells an address has the function applied there, always, and nowhere else. */
  lemma AddressesWork(out: Outside, d: JSON, p: Place, fn: JSON -> JSON)
    requires Address(out, p)
    ensures ParseTop(out, "$" + TextTo(p)) == Some(PathTo(p))
    ensures Completes(d, PathTo(p), true, fn) && Apply(d, PathTo(p), true, fn) == UpdateAt(d, p, fn)
  {
    hide Completes, Apply, ParseAll;
    AddressCompletes(out, d, p, true, fn);
    UpdatesThere(out, d, p, true, fn);
    TextParses(out, p);
    TextStart(out, p);
    IdentifierIs(out, "$");
    LexIdentifier(out, "$", TextTo(p));
    hide Lex;
  }
}
