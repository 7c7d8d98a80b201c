/** The 1:1 relation between space IDs and kube-bind IDs (pkg/kbuser/space_ids.go). */
module SpaceIds {

  /** A Go map gives the empty string for a missing key. */
  function Lookup(m: map<string, string>, k: string): string {
    if k in m then m[k] else ""
  }

  ghost predicate Inverse(to: map<string, string>, from: map<string, string>) {
    forall u, kb :: (u in to && to[u] == kb) <==> (kb in from && from[kb] == u)
  }

  ghost predicate NoEmptyIDs(m: map<string, string>) {
    forall k | k in m :: k != "" && m[k] != ""
  }

  /** The relation after a space was given an ID, taking it away from whoever had it; the empty ID stands for none. */
  ghost function Assigned(to: map<string, string>, under: string, kb: string): map<string, string> {
    if kb == "" then to - {under}
    else (map u | u in to && to[u] != kb :: to[u])[under := kb]
  }

  lemma SameAgain(to: map<string, string>, from: map<string, string>, under: string)
    requires Inverse(to, from) && NoEmptyIDs(to)
    ensures Assigned(to, under, Lookup(to, under)) == to
  {
    forall u | u in to && to[u] == Lookup(to, under)
      ensures u == under
    {
      assert to[u] in from && from[to[u]] == u;
      assert under in to;
      assert from[to[under]] == under;
    }
  }

  lemma Unassigning(to: map<string, string>, from: map<string, string>, under: string)
    requires Inverse(to, from) && NoEmptyIDs(to) && NoEmptyIDs(from)
    ensures Inverse(to - {under}, from - {Lookup(to, under)})
    ensures NoEmptyIDs(to - {under}) && NoEmptyIDs(from - {Lookup(to, under)})
  {
    assert Lookup(to, under) == "" ==> under !in to && "" !in from;
  }

  lemma Assigning(to: map<string, string>, from: map<string, string>, under: string, kb: string)
    requires Inverse(to, from) && NoEmptyIDs(to) && NoEmptyIDs(from) && under != "" && kb != ""
    ensures var to1 := (to - {Lookup(from, kb)})[under := kb];
            var from1 := (from - {Lookup(to, under)})[kb := under];
            Inverse(to1, from1) && NoEmptyIDs(to1) && NoEmptyIDs(from1) && to1 == Assigned(to, under, kb)
  {
    var former := Lookup(from, kb);
    FormerHolder(to, from, kb);
    Unassigning(to, from, former);
    var to0, from0 := to - {former}, from - {Lookup(to, former)};
    Unassigning(to0, from0, under);
    hide Inverse, NoEmptyIDs;
    Adding(to0 - {under}, from0 - {Lookup(to0, under)}, under, kb);
    SameTo(to, from, under, kb);
    SameFrom(to, from, under, kb);
  }

  lemma SameTo(to: map<string, string>, from: map<string, string>, under: string, kb: string)
    requires Inverse(to, from) && NoEmptyIDs(to) && NoEmptyIDs(from) && kb != ""
    ensures (to - {Lookup(from, kb)} - {under})[under := kb] == (to - {Lookup(from, kb)})[under := kb] ==
            Assigned(to, under, kb)
  {
    FormerHolder(to, from, kb);
    hide Inverse;
    assert (to - {Lookup(from, kb)})[under := kb] == Assigned(to, under, kb);
  }

  lemma SameFrom(to: map<string, string>, from: map<string, string>, under: string, kb: string)
    requires Inverse(to, from) && NoEmptyIDs(to) && NoEmptyIDs(from) && kb != ""
    ensures var former := Lookup(from, kb);
            (from - {Lookup(to, former)} - {Lookup(to - {former}, under)})[kb := under] ==
                (from - {Lookup(to, under)})[kb := under]
  {
    FormerHolder(to, from, kb);
    assert "" !in from;
  }

  lemma FormerHolder(to: map<string, string>, from: map<string, string>, kb: string)
    requires Inverse(to, from) && NoEmptyIDs(to) && NoEmptyIDs(from) && kb != ""
    ensures forall u :: u in to && to[u] == kb <==> u in to && u == Lookup(from, kb)
    ensures Lookup(to, Lookup(from, kb)) == if kb in from then kb else ""
  {
    assert kb in from ==> from[kb] in to && to[from[kb]] == kb;
  }

  lemma Adding(to: map<string, string>, from: map<string, string>, under: string, kb: string)
    requires Inverse(to, from) && NoEmptyIDs(to) && NoEmptyIDs(from) && under != "" && kb != ""
    requires under !in to && kb !in from
    ensures Inverse(to[under := kb], from[kb := under]) && NoEmptyIDs(to[under := kb]) && NoEmptyIDs(from[kb := under])
  {
  }

  /** A late delete for the former space of an ID does not disturb its new space. */
  lemma LateDelete(to: map<string, string>, former: string, next: string, kb: string)
    requires former != next && kb != "" && Lookup(to, former) == kb
    ensures former !in Assigned(to, next, kb)
    ensures Assigned(Assigned(to, next, kb), former, "") == Assigned(to, next, kb)
  {
    assert Assigned(to, next, kb) - {former} == Assigned(to, next, kb);
  }

  /** The space has the ID both ways, or none; no other space has it; those that did not have it keep theirs. */
  lemma AssignedMeans(was: map<string, string>, to: map<string, string>, from: map<string, string>, under: string,
                      kb: string)
    requires Inverse(to, from) && NoEmptyIDs(was) && to == Assigned(was, under, kb)
    ensures kb == "" ==> under !in to && forall k | k in from :: from[k] != under
    ensures kb == "" ==> to == was - {under}
    ensures kb != "" ==> under in to && to[under] == kb && kb in from && from[kb] == under
    ensures kb != "" ==> forall u | u in to && u != under :: to[u] != kb
    ensures kb != "" ==> forall u | u != under :: u in to <==> u in was && was[u] != kb
    ensures kb != "" ==> forall u | u != under && u in to :: to[u] == was[u]
  {
    assert kb == "" ==> forall k | k in from :: from[k] in to;
  }

  const PREFIX := "kbmap-"

  /** The space ID that the name of a config map is about, if any. */
  function Subject(name: string): (under: string)
    ensures under != "" ==> |under| >= 2 && name == "kbmap-" + under
    ensures forall u | name == "kbmap-" + u && |u| >= 2 :: under == u
  {
    if PREFIX <= name && |name| > |PREFIX| + 1 then name[|PREFIX|..] else ""
  }

  class SpaceRelation {
    var toKubeBind: map<string, string>
    var fromKubeBind: map<string, string>

    ghost predicate Valid()
      reads this
    {
      Inverse(toKubeBind, fromKubeBind) && NoEmptyIDs(toKubeBind) && NoEmptyIDs(fromKubeBind)
    }

    constructor ()
      ensures Valid() && toKubeBind == map[]
    {
      toKubeBind, fromKubeBind := map[], map[];
    }

    method SetMapping(under: string, kb: string)
      requires Valid() && under != ""
      modifies this
      ensures Valid() && toKubeBind == Assigned(old(toKubeBind), under, kb)
      ensures kb == "" ==> under !in toKubeBind && forall k | k in fromKubeBind :: fromKubeBind[k] != under
      ensures kb == "" ==> toKubeBind == old(toKubeBind) - {under}
      ensures kb != "" ==>
                && under in toKubeBind && toKubeBind[under] == kb && kb in fromKubeBind && fromKubeBind[kb] == under
                && (forall u | u in toKubeBind && u != under :: toKubeBind[u] != kb)
      ensures kb != "" ==> forall u | u != under ::
                && (u in toKubeBind <==> u in old(toKubeBind) && old(toKubeBind)[u] != kb)
                && (u in toKubeBind ==> toKubeBind[u] == old(toKubeBind)[u])
    {
      hide Inverse;
      var oldKB := Lookup(toKubeBind, under);
      if kb == oldKB {
        SameAgain(toKubeBind, fromKubeBind, under);
        AssignedMeans(toKubeBind, toKubeBind, fromKubeBind, under, kb);
        return;
      }
      if kb == "" {
        Unassigning(toKubeBind, fromKubeBind, under);
        fromKubeBind := fromKubeBind - {oldKB};
        toKubeBind := toKubeBind - {under};
        AssignedMeans(old(toKubeBind), toKubeBind, fromKubeBind, under, kb);
        return;
      }
      var oldUnder := Lookup(fromKubeBind, kb);
      Assigning(toKubeBind, fromKubeBind, under, kb);
      if oldUnder != "" {
        toKubeBind := toKubeBind - {oldUnder};
      }
      if oldKB != "" {
        fromKubeBind := fromKubeBind - {oldKB};
      }
      assert toKubeBind == old(toKubeBind) - {oldUnder} && fromKubeBind == old(fromKubeBind) - {oldKB};
      fromKubeBind := fromKubeBind[kb := under];
      toKubeBind := toKubeBind[under := kb];
      AssignedMeans(old(toKubeBind), toKubeBind, fromKubeBind, under, kb);
    }

    /** Config maps whose names are not about a space are ignored. */
    method OnAdd(name: string, kb: string)
      requires Valid()
      modifies this
      ensures Valid()
      ensures toKubeBind ==
              if Subject(name) == "" then old(toKubeBind) else Assigned(old(toKubeBind), Subject(name), kb)
      ensures forall u | name == "kbmap-" + u && |u| >= 2 && kb != "" ::
                && u in toKubeBind && toKubeBind[u] == kb && kb in fromKubeBind && fromKubeBind[kb] == u
                && forall u' | u' != u ::
                     && (u' in toKubeBind <==> u' in old(toKubeBind) && old(toKubeBind)[u'] != kb)
                     && (u' in toKubeBind ==> toKubeBind[u'] == old(toKubeBind)[u'])
      ensures (forall u | name == "kbmap-" + u :: |u| < 2) ==>
                toKubeBind == old(toKubeBind) && fromKubeBind == old(fromKubeBind)
    {
      var under := Subject(name);
      if under == "" {
        return;
      }
      SetMapping(under, kb);
    }

    method OnDelete(name: string)
      requires Valid()
      modifies this
      ensures Valid()
      ensures toKubeBind ==
              if Subject(name) == "" then old(toKubeBind) else Assigned(old(toKubeBind), Subject(name), "")
      ensures forall u | name == "kbmap-" + u && |u| >= 2 ::
                && u !in toKubeBind && (forall k | k in fromKubeBind :: fromKubeBind[k] != u)
                && toKubeBind == old(toKubeBind) - {u}
      ensures (forall u | name == "kbmap-" + u :: |u| < 2) ==>
                toKubeBind == old(toKubeBind) && fromKubeBind == old(fromKubeBind)
    {
      var under := Subject(name);
      if under == "" {
        return;
      }
      SetMapping(under, "");
    }

    /** Looking an ID up one way and back gives the ID that one started with. */
    lemma ThereAndBack(under: string)
      requires Valid()
      ensures Lookup(toKubeBind, under) != "" ==> Lookup(fromKubeBind, Lookup(toKubeBind, under)) == under
      ensures forall kb :: Lookup(fromKubeBind, kb) == under && under != "" <==>
                Lookup(toKubeBind, under) == kb && kb != ""
    {
    }
  }
}
