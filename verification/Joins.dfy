/**
 Equijoins on the first column, kept up to date change by change: a map with a relation
 (pkg/placement/join-dynamic-12vwith13.go), two relations (pkg/placement/join-dynamic-12with13.go),
 and the joins computed once that they are measured against (pkg/placement/join-static.go).
 */
module Joins {
  import opened Changes
  import opened FactoredMaps
  import opened IndexedSets

  function TripleFactorerTo23and1<X, Y, Z>(): Factorer<(X, Y, Z), (Y, Z), X> {
    Factorer((t: (X, Y, Z)) => ((t.1, t.2), t.0), (yz: (Y, Z), x: X) => (x, yz.0, yz.1))
  }

  /** `j` is the equijoin of the map `left` with the relation `right`. */
  ghost predicate IsJoin<X(!new), Y(!new), Z(!new), V>(left: map<(X, Y), V>, right: set<(X, Z)>, j: map<(X, Y, Z), V>) {
    && (forall x, y, z :: (x, y, z) in j <==> (x, y) in left && (x, z) in right)
    && (forall x, y, z | (x, y, z) in j :: j[(x, y, z)] == left[(x, y)])
  }

  lemma JoinIsUnique<X(!new), Y(!new), Z(!new), V>(
      left: map<(X, Y), V>, right: set<(X, Z)>, j: map<(X, Y, Z), V>, j': map<(X, Y, Z), V>)
    requires IsJoin(left, right, j) && IsJoin(left, right, j')
    ensures j == j'
  {
    forall t: (X, Y, Z)
      ensures t in j <==> t in j'
      ensures t in j ==> j[t] == j'[t]
    {
      assert t == (t.0, t.1, t.2);
    }
  }

  /** A change to one of the two inputs. */
  datatype JoinOp<+X, +Y, +Z, +V> =
    | PutLeft(x: X, y: Y, v: V)
    | DeleteLeft(x: X, y: Y)
    | AddRight(x: X, z: Z)
    | RemoveRight(x: X, z: Z)

  ghost function LeftAfter<X, Y, Z, V>(left: map<(X, Y), V>, op: JoinOp<X, Y, Z, V>): map<(X, Y), V> {
    match op
    case PutLeft(x, y, v) => left[(x, y) := v]
    case DeleteLeft(x, y) => left - {(x, y)}
    case _ => left
  }

  ghost function RightAfter<X, Y, Z, V>(right: set<(X, Z)>, op: JoinOp<X, Y, Z, V>): set<(X, Z)> {
    match op
    case AddRight(x, z) => right + {(x, z)}
    case RemoveRight(x, z) => right - {(x, z)}
    case _ => right
  }

  /** What is passed on for one change of an input; nothing is said about the order. */
  ghost predicate Emits<X(!new), Y(!new), Z(!new), V(!new)>(
      left: map<(X, Y), V>, right: set<(X, Z)>, op: JoinOp<X, Y, Z, V>, out: seq<MapChange<(X, Y, Z), V>>)
  {
    match op
    case PutLeft(x, y, v) =>
      forall c :: c in out <==> c.Put? && c.key.0 == x && c.key.1 == y && (x, c.key.2) in right && c.val == v
    case DeleteLeft(x, y) =>
      forall c :: c in out <==> c.Delete? && c.key.0 == x && c.key.1 == y && (x, y) in left && (x, c.key.2) in right
    case AddRight(x, z) =>
      forall c :: c in out <==>
        && c.Put? && c.key.0 == x && c.key.2 == z && (x, z) !in right
        && (x, c.key.1) in left && c.val == left[(x, c.key.1)]
    case RemoveRight(x, z) =>
      forall c :: c in out <==> c.Delete? && c.key.0 == x && c.key.2 == z && (x, z) in right && (x, c.key.1) in left
  }

  /** Whatever is passed on, in whatever order, turns the join of the old inputs into that of the new ones. */
  lemma StepKeepsJoin<X(!new), Y(!new), Z(!new), V(!new)>(
      left: map<(X, Y), V>, right: set<(X, Z)>, j: map<(X, Y, Z), V>, op: JoinOp<X, Y, Z, V>,
      out: seq<MapChange<(X, Y, Z), V>>)
    requires IsJoin(left, right, j) && Emits(left, right, op, out)
    ensures IsJoin(LeftAfter(left, op), RightAfter(right, op), AfterAll(j, out))
  {
    match op {
      case PutLeft(x, y, v) => PutLeftKeepsJoin(left, right, j, x, y, v, out);
      case DeleteLeft(_, _) => DeletesKeepJoin(left, right, j, op, out);
      case AddRight(x, z) => AddRightKeepsJoin(left, right, j, x, z, out);
      case RemoveRight(_, _) => DeletesKeepJoin(left, right, j, op, out);
    }
  }

  lemma PutLeftKeepsJoin<X(!new), Y(!new), Z(!new), V(!new)>(
      left: map<(X, Y), V>, right: set<(X, Z)>, j: map<(X, Y, Z), V>, x: X, y: Y, v: V,
      out: seq<MapChange<(X, Y, Z), V>>)
    requires IsJoin(left, right, j) && Emits(left, right, PutLeft(x, y, v), out)
    ensures IsJoin(left[(x, y) := v], right, AfterAll(j, out))
  {
    AllPuts(j, out);
    var j' := AfterAll(j, out);
    forall x', y', z'
      ensures (x', y', z') in j' <==> (x', y') in left[(x, y) := v] && (x', z') in right
      ensures (x', y', z') in j' ==> j'[(x', y', z')] == left[(x, y) := v][(x', y')]
    {
      var c := MapChange.Put((x', y', z'), v);
      assert (exists d :: d in out && d.key == (x', y', z')) <==> c in out;
    }
  }

  lemma AddRightKeepsJoin<X(!new), Y(!new), Z(!new), V(!new)>(
      left: map<(X, Y), V>, right: set<(X, Z)>, j: map<(X, Y, Z), V>, x: X, z: Z, out: seq<MapChange<(X, Y, Z), V>>)
    requires IsJoin(left, right, j) && Emits(left, right, AddRight(x, z), out)
    ensures IsJoin(left, right + {(x, z)}, AfterAll(j, out))
  {
    AllPuts(j, out);
    var j' := AfterAll(j, out);
    forall x', y', z'
      ensures (x', y', z') in j' <==> (x', y') in left && (x', z') in right + {(x, z)}
      ensures (x', y', z') in j' ==> j'[(x', y', z')] == left[(x', y')]
    {
      if (x', y') in left {
        var c := MapChange.Put((x', y', z'), left[(x', y')]);
        assert (exists d :: d in out && d.key == (x', y', z')) <==> c in out;
      }
    }
  }

  lemma DeletesKeepJoin<X(!new), Y(!new), Z(!new), V(!new)>(
      left: map<(X, Y), V>, right: set<(X, Z)>, j: map<(X, Y, Z), V>, op: JoinOp<X, Y, Z, V>,
      out: seq<MapChange<(X, Y, Z), V>>)
    requires op.DeleteLeft? || op.RemoveRight?
    requires IsJoin(left, right, j) && Emits(left, right, op, out)
    ensures IsJoin(LeftAfter(left, op), RightAfter(right, op), AfterAll(j, out))
  {
    AllDeletes(j, out);
  }

  /** The inputs, and the receiver's map, after a run in which change number i made the join pass on `outs[i]`. */
  ghost function LeftInput<X, Y, Z, V>(ops: seq<JoinOp<X, Y, Z, V>>): map<(X, Y), V> {
    if ops == [] then map[] else LeftAfter(LeftInput(ops[..|ops| - 1]), ops[|ops| - 1])
  }

  ghost function RightInput<X, Y, Z, V>(ops: seq<JoinOp<X, Y, Z, V>>): set<(X, Z)> {
    if ops == [] then {} else RightAfter(RightInput(ops[..|ops| - 1]), ops[|ops| - 1])
  }

  ghost function Received<X, Y, Z, V>(outs: seq<seq<MapChange<(X, Y, Z), V>>>): map<(X, Y, Z), V> {
    if outs == [] then map[] else AfterAll(Received(outs[..|outs| - 1]), outs[|outs| - 1])
  }

  /** For every interleaving of changes to the inputs, and every order of visiting, the receiver holds the join. */
  lemma {:induction false} RunJoins<X(!new), Y(!new), Z(!new), V(!new)>(
      ops: seq<JoinOp<X, Y, Z, V>>, outs: seq<seq<MapChange<(X, Y, Z), V>>>)
    requires |outs| == |ops|
    requires forall i | 0 <= i < |ops| :: Emits(LeftInput(ops[..i]), RightInput(ops[..i]), ops[i], outs[i])
    ensures IsJoin(LeftInput(ops), RightInput(ops), Received(outs))
  {
    if ops != [] {
      var n := |ops| - 1;
      forall i | 0 <= i < n
        ensures Emits(LeftInput(ops[..n][..i]), RightInput(ops[..n][..i]), ops[..n][i], outs[..n][i])
      {
        assert ops[..n][..i] == ops[..i];
      }
      RunJoins(ops[..n], outs[..n]);
      StepKeepsJoin(LeftInput(ops[..n]), RightInput(ops[..n]), Received(outs[..n]), ops[n], outs[n]);
    }
  }

  method PutEach<X, Y(==), Z, V>(x: X, inner: map<Y, V>, z: Z) returns (out: seq<MapChange<(X, Y, Z), V>>)
    ensures forall c :: c in out <==>
              c.Put? && c.key.0 == x && c.key.2 == z && c.key.1 in inner && c.val == inner[c.key.1]
  {
    out := [];
    var ys := VisitOrder(inner.Keys);
    assert forall y :: y in ys <==> y in Elements(ys);
    for i := 0 to |ys|
      invariant forall c :: c in out <==>
                  c.Put? && c.key.0 == x && c.key.2 == z && c.key.1 in ys[..i] && c.val == inner[c.key.1]
    {
      assert ys[..i + 1] == ys[..i] + [ys[i]];
      out := out + [MapChange.Put((x, ys[i], z), inner[ys[i]])];
    }
    assert ys[..|ys|] == ys;
  }

  /** Incremental join of a map from (X,Y) to V with a set of (X,Z). */
  class DynamicJoin12VWith13<X(==, !new), Y(==, !new), Z(==, !new), V(==, !new)> {
    const xyv: FactoredMap<(X, Y), X, Y, V>
    const xz: IndexedSet<(X, Z), X, Z>
    /** What the receiver of the emitted changes holds. */
    ghost var joined: map<(X, Y, Z), V>

    ghost predicate Valid()
      reads this, xyv, xz
    {
      && xyv.Valid() && xyv.keyDecomposer == PairFactorer()
      && xz.Valid() && xz.factoring == PairFactorer()
      && IsJoin(xyv.contents, xz.contents, joined)
    }

    constructor ()
      ensures Valid() && fresh(xyv) && fresh(xz)
      ensures xyv.contents == map[] && xz.contents == {} && joined == map[]
    {
      xyv := new FactoredMap(PairFactorer());
      xz := new IndexedSet(PairFactorer());
      joined := map[];
    }

    lemma JoinsItsInputs()
      requires Valid()
      ensures IsJoin(xyv.contents, xz.contents, joined)
    {
    }

    /** Visits the index of the relation; the order is arbitrary. */
    method Rights(x: X) returns (zs: seq<Z>)
      requires Valid()
      ensures forall z :: z in zs <==> (x, z) in xz.contents
    {
      zs := xz.Visit1to2(x);
      assert forall z :: xz.factoring.unfactor(x, z) == (x, z);
    }

    /** The entries of the map that go with `x`. */
    method Lefts(x: X) returns (inner: map<Y, V>)
      requires Valid()
      ensures forall y :: y in inner <==> (x, y) in xyv.contents
      ensures forall y | y in inner :: inner[y] == xyv.contents[(x, y)]
    {
      inner := Inner(xyv.outer, x);
      forall y
        ensures y in inner <==> (x, y) in xyv.contents
        ensures y in inner ==> inner[y] == xyv.contents[(x, y)]
      {
        assert xyv.keyDecomposer.factor((x, y)) == (x, y);
      }
    }

    method PutLeft(x: X, y: Y, v: V) returns (out: seq<MapChange<(X, Y, Z), V>>)
      requires Valid()
      modifies this, xyv
      ensures Valid()
      ensures xyv.contents == old(xyv.contents)[(x, y) := v]
      ensures xz.contents == old(xz.contents)
      ensures joined == AfterAll(old(joined), out)
      ensures Emits(old(xyv.contents), xz.contents, JoinOp.PutLeft(x, y, v), out)
    {
      var zs := Rights(x);
      var _ := xyv.Put((x, y), v);
      out := [];
      for i := 0 to |zs|
        invariant forall c :: c in out <==> c.Put? && c.key.0 == x && c.key.1 == y && c.key.2 in zs[..i] && c.val == v
      {
        assert zs[..i + 1] == zs[..i] + [zs[i]];
        out := out + [MapChange.Put((x, y, zs[i]), v)];
      }
      assert zs[..|zs|] == zs;
      StepKeepsJoin(old(xyv.contents), xz.contents, joined, JoinOp.PutLeft(x, y, v), out);
      joined := AfterAll(joined, out);
    }

    method DeleteLeft(x: X, y: Y) returns (out: seq<MapChange<(X, Y, Z), V>>)
      requires Valid()
      modifies this, xyv
      ensures Valid()
      ensures xyv.contents == old(xyv.contents) - {(x, y)}
      ensures xz.contents == old(xz.contents)
      ensures joined == AfterAll(old(joined), out)
      ensures Emits(old(xyv.contents), xz.contents, JoinOp.DeleteLeft(x, y), out)
    {
      var zs := Rights(x);
      var n := xyv.Delete((x, y));
      out := [];
      if n.None? {
        return;
      }
      for i := 0 to |zs|
        invariant forall c :: c in out <==> c.Delete? && c.key.0 == x && c.key.1 == y && c.key.2 in zs[..i]
      {
        assert zs[..i + 1] == zs[..i] + [zs[i]];
        out := out + [MapChange.Delete((x, y, zs[i]))];
      }
      assert zs[..|zs|] == zs;
      StepKeepsJoin(old(xyv.contents), xz.contents, joined, JoinOp.DeleteLeft(x, y), out);
      joined := AfterAll(joined, out);
    }

    method AddRight(x: X, z: Z) returns (out: seq<MapChange<(X, Y, Z), V>>)
      requires Valid()
      modifies this, xz
      ensures Valid()
      ensures xz.contents == old(xz.contents) + {(x, z)}
      ensures xyv.contents == old(xyv.contents)
      ensures joined == AfterAll(old(joined), out)
      ensures Emits(xyv.contents, old(xz.contents), JoinOp.AddRight(x, z), out)
    {
      var inner := Lefts(x);
      var changed, _ := xz.Add((x, z));
      out := [];
      if !changed {
        return;
      }
      out := PutEach(x, inner, z);
      StepKeepsJoin(xyv.contents, old(xz.contents), joined, JoinOp.AddRight(x, z), out);
      joined := AfterAll(joined, out);
    }

    method RemoveRight(x: X, z: Z) returns (out: seq<MapChange<(X, Y, Z), V>>)
      requires Valid()
      modifies this, xz
      ensures Valid()
      ensures xz.contents == old(xz.contents) - {(x, z)}
      ensures xyv.contents == old(xyv.contents)
      ensures joined == AfterAll(old(joined), out)
      ensures Emits(xyv.contents, old(xz.contents), JoinOp.RemoveRight(x, z), out)
    {
      var inner := Lefts(x);
      var changed, _ := xz.Remove((x, z));
      out := [];
      if !changed {
        return;
      }
      var ys := VisitOrder(inner.Keys);
      assert forall y :: y in ys <==> y in Elements(ys);
      for i := 0 to |ys|
        invariant forall c :: c in out <==> c.Delete? && c.key.0 == x && c.key.2 == z && c.key.1 in ys[..i]
      {
        assert ys[..i + 1] == ys[..i] + [ys[i]];
        out := out + [MapChange.Delete((x, ys[i], z))];
      }
      assert ys[..|ys|] == ys;
      StepKeepsJoin(xyv.contents, old(xz.contents), joined, JoinOp.RemoveRight(x, z), out);
      joined := AfterAll(joined, out);
    }

    method Apply(op: JoinOp<X, Y, Z, V>) returns (out: seq<MapChange<(X, Y, Z), V>>)
      requires Valid()
      modifies this, xyv, xz
      ensures Valid()
      ensures xyv.contents == LeftAfter(old(xyv.contents), op) && xz.contents == RightAfter(old(xz.contents), op)
      ensures joined == AfterAll(old(joined), out)
      ensures Emits(old(xyv.contents), old(xz.contents), op, out)
    {
      hide Valid, Emits, AfterAll;
      match op {
        case PutLeft(x, y, v) => out := PutLeft(x, y, v);
        case DeleteLeft(x, y) => out := DeleteLeft(x, y);
        case AddRight(x, z) => out := AddRight(x, z);
        case RemoveRight(x, z) => out := RemoveRight(x, z);
      }
    }
  }

  /** `j` is the equijoin of two relations, with the shared column kept. */
  ghost predicate IsFullJoin<X(!new), Y(!new), Z(!new)>(left: set<(X, Y)>, right: set<(X, Z)>, j: set<(X, Y, Z)>) {
    forall x, y, z :: (x, y, z) in j <==> (x, y) in left && (x, z) in right
  }

  /** `j` is the equijoin of two relations, with the shared column projected out. */
  ghost predicate IsEquijoin<X(!new), Y(!new), Z(!new)>(left: set<(X, Y)>, right: set<(X, Z)>, j: set<(Y, Z)>) {
    forall y, z :: (y, z) in j <==> exists x :: (x, y) in left && (x, z) in right
  }

  /** The equijoin computed once: visit one relation and look each member up in the index of the other. */
  method Relation2Equijoin12with13<X(==, !new), Y(==, !new), Z(==, !new)>(
      left: set<(X, Y)>, right: IndexedSet<(X, Z), X, Z>) returns (ans: set<(Y, Z)>)
    requires right.Valid() && right.factoring == PairFactorer()
    ensures IsEquijoin(left, right.contents, ans)
  {
    ans := {};
    var xys := VisitOrder(left);
    assert forall xy :: xy in xys <==> xy in Elements(xys);
    for i := 0 to |xys|
      invariant forall y, z :: (y, z) in ans <==> exists x :: (x, y) in xys[..i] && (x, z) in right.contents
    {
      assert xys[..i + 1] == xys[..i] + [xys[i]];
      var (x, y) := xys[i];
      var zs := right.Visit1to2(x);
      assert forall z :: right.factoring.unfactor(x, z) == (x, z);
      ghost var before := ans;
      for k := 0 to |zs|
        invariant forall y', z :: (y', z) in ans <==> (y', z) in before || (y' == y && z in zs[..k])
      {
        assert zs[..k + 1] == zs[..k] + [zs[k]];
        ans := ans + {(y, zs[k])};
      }
      assert zs[..|zs|] == zs;
    }
    assert xys[..|xys|] == xys;
  }

  /** One tuple joined with each partner: what extrapolateFwd1 passes on for the addition of (x, y). */
  function Extrapolated<X, Y, Z>(x: X, y: Y, zs: seq<Z>, add: bool): (out: seq<SetChange<(X, Y, Z)>>)
    ensures |out| == |zs|
    ensures forall i | 0 <= i < |zs| :: out[i] == if add then Add((x, y, zs[i])) else Remove((x, y, zs[i]))
  {
    seq(|zs|, i requires 0 <= i < |zs| => if add then Add((x, y, zs[i])) else Remove((x, y, zs[i])))
  }

  /** The same with the roles of the last two columns exchanged on the way out. */
  function Reversed23<X, Y, Z>(cs: seq<SetChange<(X, Z, Y)>>): (out: seq<SetChange<(X, Y, Z)>>)
    ensures |out| == |cs|
    ensures forall i | 0 <= i < |cs| ::
              && out[i].Add? == cs[i].Add?
              && out[i].elt == (cs[i].elt.0, cs[i].elt.2, cs[i].elt.1)
  {
    seq(|cs|, i requires 0 <= i < |cs| =>
          var (x, z, y) := cs[i].elt; if cs[i].Add? then Add((x, y, z)) else Remove((x, y, z)))
  }

  lemma LeftStepKeepsFullJoin<X(!new), Y(!new), Z(!new)>(
      left: set<(X, Y)>, right: set<(X, Z)>, j: set<(X, Y, Z)>, x: X, y: Y, zs: seq<Z>, add: bool)
    requires IsFullJoin(left, right, j) && Distinct(zs)
    requires forall z :: z in zs <==> (x, z) in right
    requires add <==> (x, y) !in left
    ensures var out := Extrapolated(x, y, zs, add);
            && Strict(j, out)
            && IsFullJoin(if add then left + {(x, y)} else left - {(x, y)}, right, ChangedAll(j, out))
  {
    var out := Extrapolated(x, y, zs, add);
    forall i, k | 0 <= i < k < |out| ensures out[i] != out[k] {
      assert zs[i] != zs[k];
    }
    assert forall c | c in out :: c.elt.0 == x && c.elt.1 == y && c.elt.2 in zs && (c.Add? <==> add);
    AllOneWay(j, out);
    forall x', y', z'
      ensures Add((x', y', z')) in out <==> add && x' == x && y' == y && z' in zs
      ensures Remove((x', y', z')) in out <==> !add && x' == x && y' == y && z' in zs
    {
      if x' == x && y' == y && z' in zs {
        var i :| 0 <= i < |zs| && zs[i] == z';
        assert out[i] in out;
      }
    }
  }

  /** The join is symmetric: exchanging the inputs exchanges the last two columns. */
  lemma RightStepKeepsFullJoin<X(!new), Y(!new), Z(!new)>(
      left: set<(X, Y)>, right: set<(X, Z)>, j: set<(X, Y, Z)>, x: X, z: Z, ys: seq<Y>, add: bool)
    requires IsFullJoin(left, right, j) && Distinct(ys)
    requires forall y :: y in ys <==> (x, y) in left
    requires add <==> (x, z) !in right
    ensures var out := Reversed23(Extrapolated(x, z, ys, add));
            && Strict(j, out)
            && IsFullJoin(left, if add then right + {(x, z)} else right - {(x, z)}, ChangedAll(j, out))
  {
    var out := Reversed23(Extrapolated(x, z, ys, add));
    forall i, k | 0 <= i < k < |out| ensures out[i] != out[k] {
      assert ys[i] != ys[k];
    }
    assert forall c | c in out :: c.elt.0 == x && c.elt.2 == z && c.elt.1 in ys && (c.Add? <==> add);
    AllOneWay(j, out);
    forall x', y', z'
      ensures Add((x', y', z')) in out <==> add && x' == x && z' == z && y' in ys
      ensures Remove((x', y', z')) in out <==> !add && x' == x && z' == z && y' in ys
    {
      if x' == x && z' == z && y' in ys {
        var i :| 0 <= i < |ys| && ys[i] == y';
        assert out[i] in out;
      }
    }
  }

  /** Incremental join of two relations that passes on the shared column too. */
  class DynamicFullJoin12with13<X(==, !new), Y(==, !new), Z(==, !new)> {
    const xy: IndexedSet<(X, Y), X, Y>
    const xz: IndexedSet<(X, Z), X, Z>
    ghost var joined: set<(X, Y, Z)>

    ghost predicate Valid()
      reads this, xy, xz
    {
      && xy as object != xz
      && xy.Valid() && xy.factoring == PairFactorer()
      && xz.Valid() && xz.factoring == PairFactorer()
      && IsFullJoin(xy.contents, xz.contents, joined)
    }

    constructor ()
      ensures Valid() && fresh(xy) && fresh(xz)
      ensures xy.contents == {} && xz.contents == {} && joined == {}
    {
      xy := new IndexedSet(PairFactorer());
      xz := new IndexedSet(PairFactorer());
      joined := {};
    }

    method ChangeLeft(add: bool, x: X, y: Y) returns (out: seq<SetChange<(X, Y, Z)>>)
      requires Valid()
      modifies this, xy
      ensures Valid()
      ensures xy.contents == if add then old(xy.contents) + {(x, y)} else old(xy.contents) - {(x, y)}
      ensures xz.contents == old(xz.contents)
      ensures joined == ChangedAll(old(joined), out)
      ensures Strict(old(joined), out)
      ensures forall c | c in out :: c.elt.0 == x && c.elt.1 == y && (c.Add? <==> add)
    {
      var changed, heard;
      if add {
        changed, heard := xy.Add((x, y));
      } else {
        changed, heard := xy.Remove((x, y));
      }
      out := [];
      if changed {
        var zs := xz.Visit1to2(x);
        assert forall z :: xz.factoring.unfactor(x, z) == (x, z);
        LeftStepKeepsFullJoin(old(xy.contents), xz.contents, joined, x, y, zs, add);
        out := Extrapolated(x, y, zs, add);
        joined := ChangedAll(joined, out);
      }
    }

    method ChangeRight(add: bool, x: X, z: Z) returns (out: seq<SetChange<(X, Y, Z)>>)
      requires Valid()
      modifies this, xz
      ensures Valid()
      ensures xz.contents == if add then old(xz.contents) + {(x, z)} else old(xz.contents) - {(x, z)}
      ensures xy.contents == old(xy.contents)
      ensures joined == ChangedAll(old(joined), out)
      ensures Strict(old(joined), out)
      ensures forall c | c in out :: c.elt.0 == x && c.elt.2 == z && (c.Add? <==> add)
    {
      var changed, heard;
      if add {
        changed, heard := xz.Add((x, z));
      } else {
        changed, heard := xz.Remove((x, z));
      }
      out := [];
      if changed {
        var ys := xy.Visit1to2(x);
        assert forall y :: xy.factoring.unfactor(x, y) == (x, y);
        RightStepKeepsFullJoin(xy.contents, old(xz.contents), joined, x, z, ys, add);
        out := Reversed23(Extrapolated(x, z, ys, add));
        joined := ChangedAll(joined, out);
      }
    }
  }

  /** The full join followed by the projector that forgets the shared column. */
  class DynamicJoin12with13<X(==, !new), Y(==, !new), Z(==, !new)> {
    const full: DynamicFullJoin12with13<X, Y, Z>
    const indexer: IndexedSet<(X, Y, Z), (Y, Z), X>
    /** What the receiver of (Y,Z) holds. */
    ghost var received: set<(Y, Z)>

    ghost predicate Valid()
      reads this, full, full.xy, full.xz, indexer
    {
      && {full.xy as object, full.xz as object} !! {indexer as object}
      && full.Valid() && indexer.Valid() && indexer.factoring == TripleFactorerTo23and1()
      && indexer.contents == full.joined
      && received == indexer.rep.Keys
    }

    constructor ()
      ensures Valid() && fresh(full) && fresh(full.xy) && fresh(full.xz) && fresh(indexer)
      ensures full.xy.contents == {} && full.xz.contents == {} && received == {}
    {
      full := new DynamicFullJoin12with13();
      indexer := new IndexedSet(TripleFactorerTo23and1());
      received := {};
    }

    /** The receiver holds the equijoin that would be computed from scratch. */
    lemma HoldsEquijoin()
      requires Valid()
      ensures IsEquijoin(full.xy.contents, full.xz.contents, received)
    {
      KeysAreProjection(indexer.factoring, indexer.rep, indexer.contents);
      forall y, z
        ensures (y, z) in received <==> exists x :: (x, y) in full.xy.contents && (x, z) in full.xz.contents
      {
        if (y, z) in received {
          var t :| t in indexer.contents && indexer.factoring.factor(t).0 == (y, z);
          assert t == (t.0, y, z);
        }
        if x :| (x, y) in full.xy.contents && (x, z) in full.xz.contents {
          assert (x, y, z) in indexer.contents && indexer.factoring.factor((x, y, z)).0 == (y, z);
        }
      }
    }

    /** The changes of the projection that go with a stream of changes of the triples. */
    method Forget(triples: seq<SetChange<(X, Y, Z)>>) returns (out: seq<SetChange<(Y, Z)>>)
      requires indexer.Valid() && received == indexer.rep.Keys
      modifies `received, indexer
      ensures indexer.Valid() && received == indexer.rep.Keys
      ensures indexer.contents == ChangedAll(old(indexer.contents), triples)
      ensures received == ChangedAll(old(received), out) && Strict(old(received), out)
    {
      hide IndexedSet.Valid, ChangedAll, Strict, AddTo, RemoveFrom;
      out := [];
      ChangedNone(indexer.contents);
      ChangedNone(received);
      for i := 0 to |triples|
        invariant indexer.Valid() && received == indexer.rep.Keys
        invariant indexer.contents == ChangedAll(old(indexer.contents), triples[..i])
        invariant received == ChangedAll(old(received), out) && Strict(old(received), out)
      {
        var heard := Forget1(triples[i]);
        if heard != [] {
          ChangedAllSnoc(old(received), out, heard[0]);
          out := out + [heard[0]];
        }
        received := indexer.rep.Keys;
        ChangedAllSnoc(old(indexer.contents), triples[..i], triples[i]);
        assert triples[..i + 1] == triples[..i] + [triples[i]];
      }
      assert triples[..|triples|] == triples;
    }

    method Forget1(c: SetChange<(X, Y, Z)>) returns (heard: seq<SetChange<(Y, Z)>>)
      requires indexer.Valid()
      modifies indexer
      ensures indexer.Valid()
      ensures indexer.contents == Changed(old(indexer.contents), c)
      ensures |heard| <= 1
      ensures heard == [] ==> indexer.rep.Keys == old(indexer.rep.Keys)
      ensures heard != [] ==>
                && indexer.rep.Keys == Changed(old(indexer.rep.Keys), heard[0])
                && (heard[0].Add? <==> heard[0].elt !in old(indexer.rep.Keys))
    {
      match c {
        case Add(t) =>
          var _, h := indexer.Add(t);
          heard := h;
        case Remove(t) =>
          var _, h := indexer.Remove(t);
          heard := h;
      }
    }

    method ChangeLeft(add: bool, x: X, y: Y) returns (out: seq<SetChange<(Y, Z)>>)
      requires Valid()
      modifies this, full, full.xy, indexer
      ensures Valid()
      ensures full.xy.contents == if add then old(full.xy.contents) + {(x, y)} else old(full.xy.contents) - {(x, y)}
      ensures full.xz.contents == old(full.xz.contents)
      ensures received == ChangedAll(old(received), out) && Strict(old(received), out)
      ensures IsEquijoin(full.xy.contents, full.xz.contents, received)
    {
      var triples := full.ChangeLeft(add, x, y);
      out := Forget(triples);
      HoldsEquijoin();
    }

    method ChangeRight(add: bool, x: X, z: Z) returns (out: seq<SetChange<(Y, Z)>>)
      requires Valid()
      modifies this, full, full.xz, indexer
      ensures Valid()
      ensures full.xz.contents == if add then old(full.xz.contents) + {(x, z)} else old(full.xz.contents) - {(x, z)}
      ensures full.xy.contents == old(full.xy.contents)
      ensures received == ChangedAll(old(received), out) && Strict(old(received), out)
      ensures IsEquijoin(full.xy.contents, full.xz.contents, received)
    {
      var triples := full.ChangeRight(add, x, z);
      out := Forget(triples);
      HoldsEquijoin();
    }
  }
}
