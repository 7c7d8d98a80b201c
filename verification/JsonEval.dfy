/**
 Applying a function to the places of a JSON value that a path selects (pkg/jsonpath/eval.go).
 JSON values are trees: no map or slice is reachable in two ways.
 */
module JsonEval {
  import opened Changes
  import opened JsonPath

  datatype JSON =
    | Null
    | Bool(b: bool)
    | Num(num: real)
    | Text(text: string)
    | Arr(elts: seq<JSON>)
    | Obj(members: map<string, JSON>)

  predicate IsScalar(d: JSON) {
    !d.Arr? && !d.Obj?
  }

  // ----- Measures -----

  ghost function MaxOf(s: set<nat>): (m: nat)
    ensures forall x | x in s :: x <= m
    ensures s != {} ==> m in s
    ensures s == {} ==> m == 0
  {
    if s == {} then 0
    else
      var x :| x in s;
      var m := MaxOf(s - {x});
      assert forall y | y in s :: y == x || y in s - {x};
      if m in s - {x} && x < m then m else x
  }

  /** How many containers may be around one another. */
  ghost function Height(d: JSON): nat {
    match d
    case Arr(elts) => 1 + MaxOf(set i | 0 <= i < |elts| :: Height(elts[i]))
    case Obj(members) => 1 + MaxOf(set k | k in members :: Height(members[k]))
    case _ => 0
  }

  function WeightOf(sel: Selector): (w: nat)
    ensures w >= 1
  {
    match sel
    case List(l) => 1 + Weight(l)
    case _ => 1
  }

  function Weight(path: seq<Selector>): nat {
    if path == [] then 0 else WeightOf(path[0]) + Weight(path[1..])
  }

  lemma WeightOfPath(sel: Selector, rest: seq<Selector>)
    ensures Weight([sel] + rest) == WeightOf(sel) + Weight(rest)
  {
    assert ([sel] + rest)[1..] == rest;
  }

  lemma ChildIsLower(d: JSON)
    ensures d.Arr? ==> forall i | 0 <= i < |d.elts| :: Height(d.elts[i]) < Height(d)
    ensures d.Obj? ==> forall k | k in d.members :: Height(d.members[k]) < Height(d)
    ensures !IsScalar(d) ==> Height(d) >= 1
    ensures IsScalar(d) ==> Height(d) == 0
  {
    match d {
      case Arr(elts) =>
        var s := set i | 0 <= i < |elts| :: Height(elts[i]);
        assert forall i | 0 <= i < |elts| :: Height(elts[i]) in s;
      case Obj(members) =>
        var s := set k | k in members :: Height(members[k]);
        assert forall k | k in members :: Height(members[k]) in s;
      case _ =>
    }
  }

  /** A container is no higher than what its children allow. */
  lemma HeightBound(sure: bool, d: JSON, h: nat)
    requires sure && d.Arr? ==> h >= 1 && forall i | 0 <= i < |d.elts| :: Height(d.elts[i]) < h
    requires sure && d.Obj? ==> h >= 1 && forall k | k in d.members :: Height(d.members[k]) < h
    ensures sure ==> Height(d) <= h
  {
  }

  // ----- What applying means -----

  ghost predicate ScalarValued(fn: JSON -> JSON) {
    forall d :: IsScalar(fn(d))
  }

  /** Every step of the path goes one level down: there is no double dot in it. */
  predicate Shallow(path: seq<Selector>) {
    forall i | 0 <= i < |path| :: ShallowSelector(path[i])
  }

  predicate ShallowSelector(sel: Selector) {
    match sel
    case List(l) => forall i | 0 <= i < |l| :: ShallowSelector(l[i])
    case Recurse => false
    case _ => true
  }

  /** A double dot goes on into what the function has put there, so the function must not put containers there. */
  ghost predicate Grounded(path: seq<Selector>, fn: JSON -> JSON) {
    ScalarValued(fn) || Shallow(path)
  }

  /** What bounds the way down, apart from the path. */
  ghost function Descent(d: JSON, shallow: bool): nat {
    if shallow then 0 else 1 + Height(d)
  }

  /** A range of exactly one index. */
  predicate IsDefinite(r: Range) {
    r.afterEnd == Some(Wrap64(r.start + 1)) && r.stride == 1
  }

  function Limit(r: Range, len: nat): int {
    if r.afterEnd.Some? && r.afterEnd.value < len then r.afterEnd.value else len
  }

  predicate Covers(r: Range, len: nat, i: int) {
    r.stride >= 1 && r.start <= i < Limit(r, len) && (i - r.start) % r.stride == 0
  }

  /**
   There is nothing to do, or the range moves forward from the beginning or later, and its last step does not
   overflow.
   */
  ghost predicate RangeCompletes(r: Range, len: nat) {
    || r.start >= Limit(r, len)
    || (r.start >= 0 && r.stride >= 1 && forall i | Covers(r, len, i) :: i + r.stride <= MAX_INT64)
  }

  function Member(d: JSON, name: string): JSON
    requires d.Obj?
  {
    if name in d.members then d.members[name] else Null
  }

  /**
   The value after the function has been applied at the selected places. A call never makes a value
   higher, which is why this ends: either the value gets lower, or the path gets lighter.
   */
  ghost function Apply(d: JSON, path: seq<Selector>, definite: bool, fn: JSON -> JSON): (r: JSON)
    requires Grounded(path, fn)
    ensures ScalarValued(fn) ==> Height(r) <= Height(d)
    decreases Descent(d, Shallow(path)), Weight(path), 0
  {
    ChildIsLower(d);
    if path == [] then
      ChildIsLower(fn(d));
      fn(d)
    else
      var rest := path[1..];
      assert Weight(path) == WeightOf(path[0]) + Weight(rest);
      match path[0]
      case Name(name) =>
        if d.Obj? && (definite || name in d.members) then
          var r := Obj(d.members[name := Apply(Member(d, name), rest, definite, fn)]);
          HeightBound(ScalarValued(fn), r, Height(d));
          r
        else d
      case Slice(range) =>
        if d.Arr? then
          var r := Arr(seq(|d.elts|, i requires 0 <= i < |d.elts| =>
                             if Covers(range, |d.elts|, i)
                             then Apply(d.elts[i], rest, definite && IsDefinite(range), fn)
                             else d.elts[i]));
          HeightBound(ScalarValued(fn), r, Height(d));
          r
        else d
      case List(l) => ApplyList(d, l, rest, definite, fn)
      case EveryChild => ApplyToChildren(d, rest, fn)
      case Recurse => ApplyToChildren(Apply(d, rest, false, fn), path, fn)
  }

  /** One member of a list after the other. */
  ghost function ApplyList(d: JSON, l: seq<Selector>, rest: seq<Selector>, definite: bool, fn: JSON -> JSON): (r: JSON)
    requires Grounded(l, fn) && Grounded(rest, fn)
    ensures ScalarValued(fn) ==> Height(r) <= Height(d)
    decreases Descent(d, Shallow(l) && Shallow(rest)), Weight(l) + Weight(rest), 1
  {
    if l == [] then d
    else
      WeightOfPath(l[0], rest);
      ApplyList(Apply(d, [l[0]] + rest, definite, fn), l[1..], rest, definite, fn)
  }

  /** To every child. */
  ghost function ApplyToChildren(d: JSON, path: seq<Selector>, fn: JSON -> JSON): (r: JSON)
    requires Grounded(path, fn)
    ensures ScalarValued(fn) ==> Height(r) <= Height(d)
    decreases Descent(d, Shallow(path)), if Shallow(path) then Weight(path) else 0, 1
  {
    ChildIsLower(d);
    var r :=
      match d
      case Arr(elts) => Arr(seq(|elts|, i requires 0 <= i < |elts| => Apply(elts[i], path, false, fn)))
      case Obj(members) => Obj(map k | k in members :: Apply(members[k], path, false, fn))
      case _ => d;
    HeightBound(ScalarValued(fn), r, Height(d));
    r
  }

  // ----- Whether it gets there -----

  /** No range that is come across runs forever or off its slice. */
  ghost predicate Completes(d: JSON, path: seq<Selector>, definite: bool, fn: JSON -> JSON)
    requires Grounded(path, fn)
    decreases Descent(d, Shallow(path)), Weight(path), 0
  {
    ChildIsLower(d);
    if path == [] then true
    else
      var rest := path[1..];
      assert Weight(path) == WeightOf(path[0]) + Weight(rest);
      match path[0]
      case Name(name) => d.Obj? && (definite || name in d.members) ==> Completes(Member(d, name), rest, definite, fn)
      case Slice(range) =>
        d.Arr? ==>
          && RangeCompletes(range, |d.elts|)
          && forall i | 0 <= i < |d.elts| && Covers(range, |d.elts|, i) ::
               Completes(d.elts[i], rest, definite && IsDefinite(range), fn)
      case List(l) => CompletesList(d, l, rest, definite, fn)
      case EveryChild => CompletesBelow(d, rest, fn)
      case Recurse => Completes(d, rest, false, fn) && CompletesBelow(Apply(d, rest, false, fn), path, fn)
  }

  ghost predicate CompletesList(d: JSON, l: seq<Selector>, rest: seq<Selector>, definite: bool, fn: JSON -> JSON)
    requires Grounded(l, fn) && Grounded(rest, fn)
    decreases Descent(d, Shallow(l) && Shallow(rest)), Weight(l) + Weight(rest), 1
  {
    if l == [] then true
    else
      WeightOfPath(l[0], rest);
      && Completes(d, [l[0]] + rest, definite, fn)
      && CompletesList(Apply(d, [l[0]] + rest, definite, fn), l[1..], rest, definite, fn)
  }

  ghost predicate CompletesBelow(d: JSON, path: seq<Selector>, fn: JSON -> JSON)
    requires Grounded(path, fn)
    decreases Descent(d, Shallow(path)), if Shallow(path) then Weight(path) else 0, 1
  {
    ChildIsLower(d);
    match d
    case Arr(elts) => forall i | 0 <= i < |elts| :: Completes(elts[i], path, false, fn)
    case Obj(members) => forall k | k in members :: Completes(members[k], path, false, fn)
    case _ => true
  }

  /** The index that the loop over a range looks at after `n` rounds, in 64 bits. */
  function IndexAfter(r: Range, n: nat): Int64 {
    if n == 0 then r.start else Wrap64(IndexAfter(r, n - 1) + r.stride)
  }

  /** After `n` rounds, all at indices that exist, the loop over a range is over. */
  ghost predicate EndsAfter(r: Range, len: nat, n: nat) {
    && !GoesOnAt(r, len, IndexAfter(r, n))
    && forall m | 0 <= m < n :: 0 <= IndexAfter(r, m) && GoesOnAt(r, len, IndexAfter(r, m))
  }

  /** There is something to do at the index: neither the array nor the range ends before it. */
  predicate GoesOnAt(r: Range, len: nat, index: int) {
    index < len && (r.afterEnd.Some? ==> index < r.afterEnd.value)
  }

  lemma LimitIs(r: Range, len: nat, index: int)
    ensures GoesOnAt(r, len, index) <==> index < Limit(r, len)
  {
  }

  /** On the way, without overflow so far. */
  lemma {:induction false} GetsThere(r: Range, len: nat, m: nat)
    requires r.start >= 0 && r.stride >= 1 && RangeCompletes(r, len)
    requires r.start <= IndexAfter(r, m) && (IndexAfter(r, m) - r.start) % r.stride == 0
    requires forall h | 0 <= h < m :: 0 <= IndexAfter(r, h) < Limit(r, len)
    ensures exists n :: EndsAfter(r, len, n)
    decreases Limit(r, len) - IndexAfter(r, m)
  {
    if IndexAfter(r, m) >= Limit(r, len) {
      assert EndsAfter(r, len, m);
    } else {
      assert Covers(r, len, IndexAfter(r, m));
      ModAdd(IndexAfter(r, m) - r.start, r.stride);
      assert IndexAfter(r, m + 1) == IndexAfter(r, m) + r.stride;
      GetsThere(r, len, m + 1);
    }
  }

  /** A covered index from which the next one would overflow is met on the way. */
  lemma {:induction false} NoOverflow(r: Range, len: nat, n: nat, m: nat, i: int)
    requires EndsAfter(r, len, n) && m <= n && r.start >= 0 && Covers(r, len, i)
    requires r.start <= IndexAfter(r, m) <= i && (IndexAfter(r, m) - r.start) % r.stride == 0
    ensures i + r.stride <= MAX_INT64
    decreases n - m
  {
    var index := IndexAfter(r, m);
    assert m < n && IndexAfter(r, m + 1) == Wrap64(index + r.stride);
    if index != i {
      NextCovered(r, len, index, i);
      hide Covers;
      NoOverflow(r, len, n, m + 1, i);
    }
  }

  lemma NextCovered(r: Range, len: nat, index: int, i: int)
    requires Covers(r, len, i) && r.start <= index < i && (index - r.start) % r.stride == 0
    ensures index + r.stride <= i && (index + r.stride - r.start) % r.stride == 0
  {
    if i < index + r.stride {
      NothingBetween(r, len, index, i);
    }
    ModAdd(index - r.start, r.stride);
  }

  lemma {:induction false} NeverUp(r: Range, n: nat)
    requires r.stride <= 0 && forall m | 0 <= m < n :: 0 <= IndexAfter(r, m)
    ensures IndexAfter(r, n) <= r.start
  {
    if n > 0 {
      NeverUp(r, n - 1);
    }
  }

  lemma EndedSoCompletes(r: Range, len: nat, n: nat)
    requires EndsAfter(r, len, n)
    ensures RangeCompletes(r, len)
  {
    if r.start < Limit(r, len) {
      assert IndexAfter(r, 0) == r.start && n > 0;
      if r.stride <= 0 {
        NeverUp(r, n);
      }
      forall i | Covers(r, len, i)
        ensures i + r.stride <= MAX_INT64
      {
        ZeroMod(r.stride);
        hide EndsAfter;
        NoOverflow(r, len, n, 0, i);
      }
    }
  }

  lemma ZeroMod(stride: int)
    requires stride >= 1
    ensures 0 % stride == 0
  {
  }

  /** The loop over a range, in 64 bits, ends at indices that exist all along exactly when the range completes. */
  lemma RangeLoopEnds(r: Range, len: nat)
    ensures (exists n :: EndsAfter(r, len, n)) <==> RangeCompletes(r, len)
  {
    forall index { LimitIs(r, len, index); }
    if n: nat :| EndsAfter(r, len, n) {
      EndedSoCompletes(r, len, n);
    }
    if RangeCompletes(r, len) {
      if r.start >= Limit(r, len) {
        assert EndsAfter(r, len, 0);
      } else {
        hide EndsAfter, RangeCompletes;
        GetsThere(r, len, 0);
      }
    }
  }

  // ----- How it is done -----

  lemma Multiples(stride: int, k: int)
    requires stride >= 1
    ensures k >= 1 ==> stride * k >= stride
    ensures k <= -1 ==> stride * k <= -stride
  {
    if k >= 1 {
      assert stride * k == stride * (k - 1) + stride;
    } else if k <= -1 {
      assert stride * k == stride * (k + 1) - stride;
    }
  }

  lemma ModAdd(x: nat, stride: int)
    requires stride >= 1
    ensures (x + stride) % stride == x % stride
  {
    var q, q' := x / stride, (x + stride) / stride;
    assert stride * (q' - q - 1) == x % stride - (x + stride) % stride;
    Multiples(stride, q' - q - 1);
  }

  lemma ModOffset(x: nat, y: nat, stride: int)
    requires stride >= 1 && x % stride == 0 && y < stride
    ensures (x + y) % stride == y
  {
    var q, q' := x / stride, (x + y) / stride;
    assert stride * (q - q') == (x + y) % stride - y;
    Multiples(stride, q - q');
  }

  /** The next index that a range covers comes a stride later. */
  lemma NothingBetween(r: Range, len: nat, index: int, i: int)
    requires r.stride >= 1 && r.start <= index && (index - r.start) % r.stride == 0 && index < i < index + r.stride
    ensures !Covers(r, len, i)
  {
    ModOffset(index - r.start, i - index, r.stride);
  }

  /** What a loop over the indices of a range has done when it is about to look at `index`. */
  ghost predicate DoneUpTo(d: JSON, elts: seq<JSON>, range: Range, rest: seq<Selector>, definite: bool,
                           fn: JSON -> JSON, index: int)
    requires d.Arr? && Grounded(rest, fn)
  {
    && |elts| == |d.elts|
    && forall i | 0 <= i < |elts| ::
         elts[i] == if i < index && Covers(range, |elts|, i) then Apply(d.elts[i], rest, definite, fn) else d.elts[i]
  }

  /** What the loop has found when it is about to look at `index`: no trouble so far. */
  ghost predicate CompleteUpTo(d: JSON, range: Range, rest: seq<Selector>, definite: bool, fn: JSON -> JSON, index: int)
    requires d.Arr? && Grounded(rest, fn)
  {
    forall i | 0 <= i < |d.elts| && i < index && Covers(range, |d.elts|, i) ::
      Completes(d.elts[i], rest, definite, fn) && i + range.stride <= MAX_INT64
  }

  lemma RangeStep(d: JSON, elts: seq<JSON>, range: Range, rest: seq<Selector>, definite: bool, fn: JSON -> JSON,
                  index: int)
    requires d.Arr? && Grounded(rest, fn) && 0 <= index < |d.elts| && Covers(range, |d.elts|, index)
    requires DoneUpTo(d, elts, range, rest, definite, fn, index) && CompleteUpTo(d, range, rest, definite, fn, index)
    ensures DoneUpTo(d, elts[index := Apply(d.elts[index], rest, definite, fn)], range, rest, definite, fn,
                     index + range.stride)
    ensures Completes(d.elts[index], rest, definite, fn) && index + range.stride <= MAX_INT64 ==>
              CompleteUpTo(d, range, rest, definite, fn, index + range.stride)
  {
    hide Apply, Covers, Completes;
    CoveredIndex(range, |d.elts|, index);
    forall i | index < i < index + range.stride
      ensures !Covers(range, |d.elts|, i)
    {
      NothingBetween(range, |d.elts|, index, i);
    }
  }

  /** The indices that a range covers: those that it gets to from its start, before its end and that of the array. */
  lemma CoversIs(r: Range, len: nat, i: int)
    ensures Covers(r, len, i) <==>
            && r.stride >= 1 && i < len && (r.afterEnd.Some? ==> i < r.afterEnd.value)
            && exists n: nat :: i == r.start + n * r.stride
  {
    if r.stride >= 1 {
      var x := i - r.start;
      if x >= 0 && x % r.stride == 0 {
        Quotient(x, r.stride);
        assert i == r.start + (x / r.stride) * r.stride;
      }
      if n: nat :| i == r.start + n * r.stride {
        MultipleIsZero(n, r.stride);
      }
    }
  }

  lemma Quotient(x: nat, stride: int)
    requires stride >= 1
    ensures x / stride >= 0 && x == (x / stride) * stride + x % stride
  {
  }

  lemma {:induction false} MultipleIsZero(n: nat, stride: int)
    requires stride >= 1
    ensures n * stride >= 0 && (n * stride) % stride == 0
  {
    if n > 0 {
      MultipleIsZero(n - 1, stride);
      ModAdd((n - 1) * stride, stride);
      assert n * stride == (n - 1) * stride + stride;
    }
  }

  /** When a range completes, in terms of the steps that it makes. */
  lemma RangeCompletesIs(r: Range, len: nat)
    ensures RangeCompletes(r, len) <==>
            || r.start >= len || (r.afterEnd.Some? && r.start >= r.afterEnd.value)
            || (r.start >= 0 && r.stride >= 1 && forall n: nat | GoesOnAt(r, len, r.start + n * r.stride) ::
                  r.start + n * r.stride + r.stride <= 9223372036854775807)
  {
    if r.stride >= 1 {
      forall n: nat | GoesOnAt(r, len, r.start + n * r.stride)
        ensures Covers(r, len, r.start + n * r.stride)
      {
        CoversIs(r, len, r.start + n * r.stride);
      }
      forall i | Covers(r, len, i)
        ensures exists n: nat :: i == r.start + n * r.stride && GoesOnAt(r, len, r.start + n * r.stride)
      {
        CoversIs(r, len, i);
      }
    }
  }

  lemma CoveredIndex(r: Range, len: nat, i: int)
    ensures Covers(r, len, i) <==> r.stride >= 1 && r.start <= i < Limit(r, len) && (i - r.start) % r.stride == 0
  {
  }

  lemma NothingBefore(r: Range, len: nat)
    ensures forall i | i < r.start :: !Covers(r, len, i)
    ensures r.stride >= 1 ==> (r.start - r.start) % r.stride == 0
  {
  }

  /** The loop came to its end: all that it covers completes. */
  lemma RangeDone(d: JSON, path: seq<Selector>, definite: bool, fn: JSON -> JSON, index: int)
    requires Grounded(path, fn) && path != [] && path[0].Slice? && d.Arr?
    requires var range := path[0].range;
             && Limit(range, |d.elts|) <= index
             && (range.start >= Limit(range, |d.elts|) || (range.start >= 0 && range.stride >= 1))
             && CompleteUpTo(d, range, path[1..], definite && IsDefinite(range), fn, index)
    ensures Completes(d, path, definite, fn)
  {
    hide Apply;
    var range := path[0].range;
    forall i | Covers(range, |d.elts|, i) && range.start >= 0
      ensures i + range.stride <= MAX_INT64
    {
      assert 0 <= i < |d.elts| && i < index;
    }
  }

  /** The loop ran into trouble. */
  lemma RangeFails(d: JSON, path: seq<Selector>, definite: bool, fn: JSON -> JSON, i: int)
    requires Grounded(path, fn) && path != [] && path[0].Slice? && d.Arr?
    requires var range := path[0].range;
             || (range.start < Limit(range, |d.elts|) && (range.start < 0 || range.stride < 1))
             || (&& range.start < Limit(range, |d.elts|) && Covers(range, |d.elts|, i)
                 && (i + range.stride > MAX_INT64
                     || (0 <= i < |d.elts| && !Completes(d.elts[i], path[1..], definite && IsDefinite(range), fn))))
    ensures !Completes(d, path, definite, fn)
  {
    hide Apply;
  }

  lemma AppliedToRange(d: JSON, path: seq<Selector>, definite: bool, fn: JSON -> JSON, elts: seq<JSON>, index: int)
    requires Grounded(path, fn) && path != [] && path[0].Slice? && d.Arr?
    requires var range := path[0].range;
             && Limit(range, |d.elts|) <= index
             && DoneUpTo(d, elts, range, path[1..], definite && IsDefinite(range), fn, index)
    ensures Apply(d, path, definite, fn) == Arr(elts)
  {
    assert Apply(d, path, definite, fn).elts == elts;
  }

  lemma AppliedToElements(d: JSON, path: seq<Selector>, fn: JSON -> JSON, elts: seq<JSON>)
    requires Grounded(path, fn) && d.Arr? && |elts| == |d.elts|
    requires forall i | 0 <= i < |elts| :: elts[i] == Apply(d.elts[i], path, false, fn)
    ensures ApplyToChildren(d, path, fn) == Arr(elts)
  {
    hide Apply, Height;
    assert ApplyToChildren(d, path, fn).elts == elts;
  }

  lemma AppliedToMembers(d: JSON, path: seq<Selector>, fn: JSON -> JSON, members: map<string, JSON>)
    requires Grounded(path, fn) && d.Obj? && members.Keys == d.members.Keys
    requires forall k | k in members :: members[k] == Apply(d.members[k], path, false, fn)
    ensures ApplyToChildren(d, path, fn) == Obj(members)
  {
    hide Apply, Height;
    assert ApplyToChildren(d, path, fn).members == members;
  }

  lemma AppliedToName(d: JSON, path: seq<Selector>, definite: bool, fn: JSON -> JSON)
    requires Grounded(path, fn) && path != [] && path[0].Name?
    ensures var name := path[0].name;
            Apply(d, path, definite, fn) ==
            if d.Obj? && (definite || name in d.members)
            then Obj(d.members[name := Apply(Member(d, name), path[1..], definite, fn)]) else d
  {
    hide Height;
  }

  lemma AppliedToOthers(d: JSON, path: seq<Selector>, definite: bool, fn: JSON -> JSON)
    requires Grounded(path, fn)
    ensures path == [] ==> Apply(d, path, definite, fn) == fn(d)
    ensures path != [] && path[0].Slice? && !d.Arr? ==> Apply(d, path, definite, fn) == d
    ensures path != [] && path[0].List? ==>
              Apply(d, path, definite, fn) == ApplyList(d, path[0].list, path[1..], definite, fn)
    ensures path != [] && path[0].EveryChild? ==> Apply(d, path, definite, fn) == ApplyToChildren(d, path[1..], fn)
    ensures path != [] && path[0].Recurse? ==>
              Apply(d, path, definite, fn) == ApplyToChildren(Apply(d, path[1..], false, fn), path, fn)
  {
    hide Height, ApplyList, ApplyToChildren;
  }

  lemma ListStep(d: JSON, l: seq<Selector>, rest: seq<Selector>, definite: bool, fn: JSON -> JSON)
    requires Grounded(l, fn) && Grounded(rest, fn)
    ensures l == [] ==> ApplyList(d, l, rest, definite, fn) == d
    ensures l != [] ==>
              var first := Apply(d, [l[0]] + rest, definite, fn);
              ApplyList(d, l, rest, definite, fn) == ApplyList(first, l[1..], rest, definite, fn)
  {
    hide Height, Apply;
  }

  lemma CompletesIs(d: JSON, path: seq<Selector>, definite: bool, fn: JSON -> JSON)
    requires Grounded(path, fn)
    ensures path == [] ==> Completes(d, path, definite, fn)
    ensures path != [] && path[0].Name? ==>
              (Completes(d, path, definite, fn) <==>
               (d.Obj? && (definite || path[0].name in d.members) ==>
                  Completes(Member(d, path[0].name), path[1..], definite, fn)))
    ensures path != [] && path[0].Slice? && !d.Arr? ==> Completes(d, path, definite, fn)
    ensures path != [] && path[0].List? ==>
              (Completes(d, path, definite, fn) <==> CompletesList(d, path[0].list, path[1..], definite, fn))
    ensures path != [] && path[0].EveryChild? ==>
              (Completes(d, path, definite, fn) <==> CompletesBelow(d, path[1..], fn))
    ensures path != [] && path[0].Recurse? ==>
              (Completes(d, path, definite, fn) <==>
               Completes(d, path[1..], false, fn) && CompletesBelow(Apply(d, path[1..], false, fn), path, fn))
  {
    hide Height, Apply, CompletesList, CompletesBelow;
  }

  lemma CompletesListStep(d: JSON, l: seq<Selector>, rest: seq<Selector>, definite: bool, fn: JSON -> JSON)
    requires Grounded(l, fn) && Grounded(rest, fn)
    ensures l == [] ==> CompletesList(d, l, rest, definite, fn)
    ensures l != [] ==>
              (CompletesList(d, l, rest, definite, fn) <==>
               && Completes(d, [l[0]] + rest, definite, fn)
               && CompletesList(Apply(d, [l[0]] + rest, definite, fn), l[1..], rest, definite, fn))
  {
    hide Height, Apply, Completes;
  }

  lemma {:induction false} LighterMember(l: seq<Selector>, i: nat)
    requires i < |l|
    ensures WeightOf(l[i]) <= Weight(l)
  {
    if i > 0 {
      LighterMember(l[1..], i - 1);
    }
  }
}
