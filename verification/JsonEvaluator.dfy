/**
 The evaluator as it works, loop by loop (pkg/jsonpath/eval.go), and its use on texts
 (cmd/json-path-replace/main.go).
 */
module JsonEvaluator {
  import opened Changes
  import opened JsonPath
  import opened JsonPathPrinter
  import opened JsonPathReader
  import opened JsonEval
  import opened JsonPlaces
  import opened JsonInsertion
  import opened JsonCompletion

  /**
   The evaluation, unless it runs forever or off a slice: it gets there with the value said exactly when every
   range completes on every array that the path leads to with it.
   */
  method Evaluate(d: JSON, path: seq<Selector>, definite: bool, fn: JSON -> JSON) returns (r: Option<JSON>)
    requires Grounded(path, fn)
    ensures r.Some? <==> Smooth(d, path)
    ensures r == if Completes(d, path, definite, fn) then Some(Apply(d, path, definite, fn)) else None
    decreases Descent(d, Shallow(path)), Weight(path), 0
  {
    hide Apply, ApplyList, ApplyToChildren, Height, Completes, CompletesList, CompletesBelow,
         Smooth, SmoothList, SmoothBelow;
    AppliedToOthers(d, path, definite, fn);
    CompletesIs(d, path, definite, fn);
    CompletesIff(d, path, definite, fn);
    if |path| == 0 {
      return Some(fn(d));
    }
    ChildIsLower(d);
    var rest := path[1..];
    assert Weight(path) == WeightOf(path[0]) + Weight(rest);
    match path[0] {
      case Name(name) =>
        AppliedToName(d, path, definite, fn);
        r := Some(d);
        if d.Obj? {
          if definite {
            ChildIsLower(Member(d, name));
            var child := Evaluate(Member(d, name), rest, definite, fn);
            r := if child.None? then None else Some(Obj(d.members[name := child.value]));
          } else if name in d.members {
            var child := Evaluate(d.members[name], rest, definite, fn);
            r := if child.None? then None else Some(Obj(d.members[name := child.value]));
          }
        }
      case Slice(range) =>
        r := EvaluateRange(d, range, rest, definite && IsDefinite(range), fn, path, definite);
      case List(l) =>
        r := EvaluateList(d, l, rest, definite, fn);
      case EveryChild =>
        r := EvaluateChildren(d, rest, fn);
      case Recurse =>
        var first := Evaluate(d, rest, false, fn);
        if first.None? {
          return None;
        }
        r := EvaluateChildren(first.value, path, fn);
    }
  }

  method EvaluateList(d: JSON, l: seq<Selector>, rest: seq<Selector>, definite: bool, fn: JSON -> JSON)
    returns (r: Option<JSON>)
    requires Grounded(l, fn) && Grounded(rest, fn)
    ensures r.Some? <==> SmoothList(d, l, rest)
    ensures r == if CompletesList(d, l, rest, definite, fn) then Some(ApplyList(d, l, rest, definite, fn)) else None
    decreases Descent(d, Shallow(l) && Shallow(rest)), Weight(l) + Weight(rest), 1
  {
    hide Apply, ApplyList, Height, Completes, CompletesList, Smooth, SmoothList;
    ListsCompleteIff(d, l, rest, definite, fn);
    var now := d;
    for i := 0 to |l|
      invariant ScalarValued(fn) ==> Height(now) <= Height(d)
      invariant ApplyList(d, l, rest, definite, fn) == ApplyList(now, l[i..], rest, definite, fn)
      invariant CompletesList(d, l, rest, definite, fn) == CompletesList(now, l[i..], rest, definite, fn)
    {
      WeightOfPath(l[i], rest);
      LighterMember(l, i);
      assert l[i..][0] == l[i] && l[i..][1..] == l[i + 1..];
      ListStep(now, l[i..], rest, definite, fn);
      CompletesListStep(now, l[i..], rest, definite, fn);
      var next := Evaluate(now, [l[i]] + rest, definite, fn);
      if next.None? {
        return None;
      }
      now := next.value;
    }
    ListStep(now, l[|l|..], rest, definite, fn);
    CompletesListStep(now, l[|l|..], rest, definite, fn);
    return Some(now);
  }

  method EvaluateRange(d: JSON, range: Range, rest: seq<Selector>, definite: bool, fn: JSON -> JSON,
                       ghost path: seq<Selector>, ghost wasDefinite: bool)
    returns (r: Option<JSON>)
    requires path != [] && path[0] == Slice(range) && path[1..] == rest && Grounded(path, fn)
    requires definite == (wasDefinite && IsDefinite(range))
    ensures r.Some? <==> Smooth(d, path)
    ensures r == if Completes(d, path, wasDefinite, fn) then Some(Apply(d, path, wasDefinite, fn)) else None
    decreases Descent(d, Shallow(rest)), Weight(rest), 1
  {
    hide Apply, Height, Completes, Covers, Smooth;
    AppliedToOthers(d, path, wasDefinite, fn);
    CompletesIs(d, path, wasDefinite, fn);
    CompletesIff(d, path, wasDefinite, fn);
    if !d.Arr? {
      return Some(d);
    }
    ChildIsLower(d);
    var elts := d.elts;
    var limit := |elts|;
    if range.afterEnd.Some? && range.afterEnd.value < limit {
      limit := range.afterEnd.value;
    }
    var index: Int64 := range.start;
    ghost var last, overflown := index as int, false;
    NothingBefore(range, |d.elts|);
    while index < limit
      invariant !overflown ==> DoneUpTo(d, elts, range, rest, definite, fn, index)
      invariant !overflown ==> CompleteUpTo(d, range, rest, definite, fn, index)
      invariant !overflown ==> range.start <= index && (index > range.start ==> range.start >= 0 && range.stride >= 1)
      invariant !overflown && range.stride >= 1 ==> (index - range.start) % range.stride == 0
      invariant overflown ==> index < 0 <= range.start < limit
      invariant overflown ==> Covers(range, |d.elts|, last) && last + range.stride > MAX_INT64
      decreases if index < 0 then 0 else limit - index
    {
      if index < 0 {
        // the index does not exist
        RangeFails(d, path, wasDefinite, fn, last);
        return None;
      }
      if range.stride < 1 {
        // the same index again, forever, or down to indices that do not exist
        RangeFails(d, path, wasDefinite, fn, last);
        return None;
      }
      CoveredIndex(range, |d.elts|, index);
      assert elts[index] == d.elts[index];
      var child := Evaluate(elts[index], rest, definite, fn);
      if child.None? {
        RangeFails(d, path, wasDefinite, fn, index);
        return None;
      }
      RangeStep(d, elts, range, rest, definite, fn, index);
      elts := elts[index := child.value];
      ModAdd(index - range.start, range.stride);
      last, overflown := index, index + range.stride > MAX_INT64;
      index := Wrap64(index + range.stride);
    }
    AppliedToRange(d, path, wasDefinite, fn, elts, index);
    RangeDone(d, path, wasDefinite, fn, index);
    r := Some(Arr(elts));
  }

  method EvaluateChildren(d: JSON, path: seq<Selector>, fn: JSON -> JSON) returns (r: Option<JSON>)
    requires Grounded(path, fn)
    ensures r.Some? <==> SmoothBelow(d, path)
    ensures r == if CompletesBelow(d, path, fn) then Some(ApplyToChildren(d, path, fn)) else None
    decreases Descent(d, Shallow(path)), if Shallow(path) then Weight(path) else 0, 2
  {
    hide Apply, ApplyToChildren, Height, Completes, CompletesBelow, SmoothBelow;
    AllChildrenCompleteIff(d, path, fn);
    match d {
      case Arr(_) =>
        r := EvaluateElements(d, path, fn);
      case Obj(_) =>
        r := EvaluateMembers(d, path, fn);
      case _ =>
        NoChildren(d, path, fn);
        r := Some(d);
    }
  }

  method EvaluateElements(d: JSON, path: seq<Selector>, fn: JSON -> JSON) returns (r: Option<JSON>)
    requires Grounded(path, fn) && d.Arr?
    ensures r == if CompletesBelow(d, path, fn) then Some(ApplyToChildren(d, path, fn)) else None
    decreases Descent(d, Shallow(path)), if Shallow(path) then Weight(path) else 0, 1
  {
    hide Apply, ApplyToChildren, Height, Completes, Smooth;
    ChildIsLower(d);
    var all, elts := d.elts, d.elts;
    for i := 0 to |elts|
      invariant |elts| == |all|
      invariant forall h | 0 <= h < |elts| :: elts[h] == if h < i then Apply(all[h], path, false, fn) else all[h]
      invariant forall h | 0 <= h < i :: Completes(all[h], path, false, fn)
    {
      var child := Evaluate(elts[i], path, false, fn);
      if child.None? {
        return None;
      }
      elts := elts[i := child.value];
    }
    AppliedToElements(d, path, fn, elts);
    r := Some(Arr(elts));
  }

  method EvaluateMembers(d: JSON, path: seq<Selector>, fn: JSON -> JSON) returns (r: Option<JSON>)
    requires Grounded(path, fn) && d.Obj?
    ensures r == if CompletesBelow(d, path, fn) then Some(ApplyToChildren(d, path, fn)) else None
    decreases Descent(d, Shallow(path)), if Shallow(path) then Weight(path) else 0, 1
  {
    hide Apply, ApplyToChildren, Height, Completes, Smooth;
    ChildIsLower(d);
    var all, members := d.members, d.members;
    var keys := VisitOrder(all.Keys);
    assert forall k :: k in keys <==> k in Elements(keys);
    for i := 0 to |keys|
      invariant members.Keys == all.Keys
      invariant forall k | k in all :: members[k] == if k in keys[..i] then Apply(all[k], path, false, fn) else all[k]
      invariant forall k | k in keys[..i] :: Completes(all[k], path, false, fn)
    {
      assert keys[..i + 1] == keys[..i] + [keys[i]];
      assert forall k :: k in keys[..i] <==> k in Elements(keys[..i]);
      PrefixElements(keys, i);
      var child := Evaluate(members[keys[i]], path, false, fn);
      if child.None? {
        assert keys[i] in all;
        return None;
      }
      members := members[keys[i] := child.value];
    }
    assert keys[..|keys|] == keys;
    AppliedToMembers(d, path, fn, members);
    r := Some(Obj(members));
  }

  // ----- Texts -----

  lemma ParsedRangesStart(path: Parsed, r: Range)
    requires AllProducible(path) && RangeOf(path, r)
    ensures r.start >= 0
  {
    var i :| 0 <= i < |path| && HasRange(path[i], r);
    assert Producible(path[i]);
    if path[i].List? {
      var j :| 0 <= j < |path[i].list| && HasRange(path[i].list[j], r);
    }
  }

  /**
   Whatever is parsed gets to its end on data with arrays of at most `n` elements, if its strides are not zero
   and not so long that a step from within so many elements overflows.
   */
  lemma ParsedPathsComplete(out: Outside, text: string, path: Parsed, d: JSON, definite: bool, fn: JSON -> JSON, n: nat)
    requires ParseTop(out, text) == Some(path) && Grounded(path, fn) && Short(d, n)
    requires forall r | RangeOf(path, r) :: 1 <= r.stride <= MAX_INT64 + 1 - n
    ensures Smooth(d, path) && Completes(d, path, definite, fn)
  {
    hide ParseAll, Lex, Completes, RangeOf, Smooth;
    ParsedIsProducible(out, Lex(out, text).1, false);
    forall r | RangeOf(path, r)
      ensures Tame(r, n)
    {
      ParsedRangesStart(path, r);
    }
    TameCompletes(d, path, definite, fn, n);
    CompletesIff(d, path, definite, fn);
  }

  /**
   Replaces what a text selects: fails exactly on a text that does not parse, and on a path with a range that
   does not complete where the path leads.
   */
  method ReplaceByText(out: Outside, data: JSON, pathStr: string, value: JSON) returns (r: Option<JSON>)
    requires forall path | ParseTop(out, pathStr) == Some(path) :: Fits(path, value)
    ensures r == match ParseTop(out, pathStr)
                 case None => None
                 case Some(path) =>
                   if Smooth(data, path)
                   then Some(Replace(Grow(data, path), Sel(Grow(data, path), path), value)) else None
  {
    hide Smooth, Sel, Replace, Grow, Apply, Completes, ParseTop;
    var parsedPath := ParseString(out, pathStr);
    if parsedPath.None? {
      return None;
    }
    var path := parsedPath.value;
    r := Evaluate(data, path, true, Const(value));
    ParsedPathsApply(out, pathStr, path, data, value);
  }
}
