/**
 The where resolver (pkg/where-resolver): EdgePlacements select Locations, Locations select
 SyncTargets, and for each EdgePlacement a SinglePlacementSlice lists the pairs found that way.
 The slices are edited as the objects change, guided by two reverse indices.
 */
module WhereResolver {
  import opened Changes
  import opened IndexedSets
  import opened PlacementTypes

  type Labels = map<string, string>
  type Selector = Labels -> bool

  /** The consumer's space and the name that the object has there. */
  datatype Key = Key(space: string, name: string)

  datatype EdgePlacement = EdgePlacement(locationSelectors: seq<Selector>)

  datatype Location = Location(labels: Labels, instanceSelector: Selector)

  datatype SyncTarget = SyncTarget(labels: Labels, uid: string)

  /** What the informers have. */
  datatype Catalog = Catalog(eps: map<Key, EdgePlacement>, locs: map<Key, Location>, sts: map<Key, SyncTarget>)

  // ----- What is wanted -----

  predicate EpSelects(ep: EdgePlacement, loc: Location) {
    exists i :: 0 <= i < |ep.locationSelectors| && ep.locationSelectors[i](loc.labels)
  }

  predicate LocSelects(l: Key, loc: Location, s: Key, st: SyncTarget) {
    l.space == s.space && loc.instanceSelector(st.labels)
  }

  function Single(l: Key, s: Key, st: SyncTarget): SinglePlacement {
    SinglePlacement(l.space, l.name, s.name, st.uid)
  }

  /** The two hops from an EdgePlacement by way of Location `l` to SyncTarget `s`. */
  predicate Path(c: Catalog, ep: EdgePlacement, l: Key, s: Key) {
    l in c.locs && s in c.sts && EpSelects(ep, c.locs[l]) && LocSelects(l, c.locs[l], s, c.sts[s])
  }

  ghost predicate CalledFor(c: Catalog, ep: EdgePlacement, sp: SinglePlacement) {
    exists l, s :: Path(c, ep, l, s) && sp == Single(l, s, c.sts[s])
  }

  lemma AnySelectorWill(ep: EdgePlacement, loc: Location)
    ensures EpSelects(ep, loc) <==> exists i :: 0 <= i < |ep.locationSelectors| && ep.locationSelectors[i](loc.labels)
  {
  }

  /** Some selector of the EdgePlacement matches the Location, which selects the SyncTarget, of the same space. */
  predicate TwoHops(ep: EdgePlacement, l: Key, loc: Location, s: Key, st: SyncTarget, sp: SinglePlacement) {
    && (exists i :: 0 <= i < |ep.locationSelectors| && ep.locationSelectors[i](loc.labels))
    && l.space == s.space && loc.instanceSelector(st.labels)
    && sp == SinglePlacement(l.space, l.name, s.name, st.uid)
  }

  /** What is called for, written out. */
  lemma CalledForIs(c: Catalog, ep: EdgePlacement, sp: SinglePlacement)
    ensures CalledFor(c, ep, sp) <==> exists l, s ::
              l in c.locs && s in c.sts && TwoHops(ep, l, c.locs[l], s, c.sts[s], sp)
  {
    assert forall l, s | l in c.locs && s in c.sts ::
        TwoHops(ep, l, c.locs[l], s, c.sts[s], sp) <==> Path(c, ep, l, s) && sp == Single(l, s, c.sts[s]);
  }

  /** Selectors add up: with more of them, an EdgePlacement calls for what each part of them does. */
  lemma SelectorsAddUp(c: Catalog, a: seq<Selector>, b: seq<Selector>, sp: SinglePlacement)
    ensures CalledFor(c, EdgePlacement(a + b), sp) <==>
            CalledFor(c, EdgePlacement(a), sp) || CalledFor(c, EdgePlacement(b), sp)
    ensures !CalledFor(c, EdgePlacement([]), sp)
  {
    forall loc
      ensures EpSelects(EdgePlacement(a + b), loc) <==>
              EpSelects(EdgePlacement(a), loc) || EpSelects(EdgePlacement(b), loc)
    {
      if i :| 0 <= i < |b| && b[i](loc.labels) {
        assert (a + b)[|a| + i] == b[i];
      }
      if i :| 0 <= i < |a| && a[i](loc.labels) {
        assert (a + b)[i] == a[i];
      }
    }
    hide EpSelects;
    assert forall l, s :: Path(c, EdgePlacement(a + b), l, s) <==>
             Path(c, EdgePlacement(a), l, s) || Path(c, EdgePlacement(b), l, s);
  }

  /** The slice lists what is called for, once each. */
  ghost predicate SliceIs(c: Catalog, ep: EdgePlacement, slice: seq<SinglePlacement>) {
    Distinct(slice) && forall sp :: sp in slice <==> CalledFor(c, ep, sp)
  }

  /** ep <- loc */
  ghost predicate EpsIndexed(c: Catalog, index: Index<Key, Key>) {
    forall l, e :: Holds(index, l, e) <==> l in c.locs && e in c.eps && EpSelects(c.eps[e], c.locs[l])
  }

  /** loc <- st */
  ghost predicate LocsIndexed(c: Catalog, index: Index<Key, Key>) {
    forall s, l :: Holds(index, s, l) <==> s in c.sts && l in c.locs && LocSelects(l, c.locs[l], s, c.sts[s])
  }

  ghost predicate SlicesRight(c: Catalog, slices: map<Key, seq<SinglePlacement>>) {
    forall e | e in c.eps :: e in slices && SliceIs(c, c.eps[e], slices[e])
  }

  /** A Location of another space would match the SyncTarget. */
  ghost predicate CrossMatch(c: Catalog, s: Key, st: SyncTarget) {
    exists l :: l in c.locs && l.space != s.space && c.locs[l].instanceSelector(st.labels)
  }

  /** The EdgePlacement selects a Location of another space that would match the SyncTarget. */
  ghost predicate CrossMatchFor(c: Catalog, ep: EdgePlacement, s: Key, st: SyncTarget) {
    exists l :: l in c.locs && l.space != s.space && c.locs[l].instanceSelector(st.labels) && EpSelects(ep, c.locs[l])
  }

  // ----- Histories -----

  datatype Event =
    | PutEp(k: Key, ep: EdgePlacement)
    | DropEp(k: Key)
    | PutLoc(k: Key, loc: Location)
    | PutSt(k: Key, st: SyncTarget)

  const EMPTY: Catalog := Catalog(map[], map[], map[])

  function AfterEvent(c: Catalog, e: Event): Catalog {
    match e
    case PutEp(k, ep) => c.(eps := c.eps[k := ep])
    case DropEp(k) => c.(eps := c.eps - {k})
    case PutLoc(k, loc) => WithLoc(c, k, loc)
    case PutSt(k, st) => WithSt(c, k, st)
  }

  function AfterEvents(c: Catalog, events: seq<Event>): Catalog {
    if events == [] then c else AfterEvent(AfterEvents(c, events[..|events| - 1]), events[|events| - 1])
  }

  /** The events are about the same object. */
  predicate SameObject(e: Event, f: Event) {
    || ((e.PutEp? || e.DropEp?) && (f.PutEp? || f.DropEp?) && e.k == f.k)
    || (e.PutLoc? && f.PutLoc? && e.k == f.k)
    || (e.PutSt? && f.PutSt? && e.k == f.k)
  }

  /** The event has occurred, and no event since has been about the same object. */
  ghost predicate LastWord(events: seq<Event>, e: Event) {
    exists i :: LastAt(events, i) && events[i] == e
  }

  ghost predicate LastAt(events: seq<Event>, i: int) {
    0 <= i < |events| && forall j | i < j < |events| :: !SameObject(events[i], events[j])
  }

  /** What is there is what the last word on it says. */
  lemma {:induction false} LastWordCounts(events: seq<Event>)
    ensures var c := AfterEvents(EMPTY, events);
            && (forall k, ep :: k in c.eps && c.eps[k] == ep <==> LastWord(events, PutEp(k, ep)))
            && (forall k, loc :: k in c.locs && c.locs[k] == loc <==> LastWord(events, PutLoc(k, loc)))
            && (forall k, st :: k in c.sts && c.sts[k] == st <==> LastWord(events, PutSt(k, st)))
  {
    hide LastWord;
    if events == [] {
      forall e { NoWord(e); }
    } else {
      var init, last := events[..|events| - 1], events[|events| - 1];
      LastWordCounts(init);
      assert events == init + [last];
      forall e { NextWord(init, last, e); }
    }
  }

  /** What is called for, by the last words. */
  lemma CalledFromHistory(events: seq<Event>, ep: EdgePlacement, sp: SinglePlacement)
    ensures CalledFor(AfterEvents(EMPTY, events), ep, sp) <==> exists l, loc, s, st ::
              && LastWord(events, PutLoc(l, loc)) && LastWord(events, PutSt(s, st))
              && TwoHops(ep, l, loc, s, st, sp)
  {
    hide LastWord, CalledFor, AfterEvents, TwoHops;
    var c := AfterEvents(EMPTY, events);
    LastWordCounts(events);
    CalledForIs(c, ep, sp);
    if CalledFor(c, ep, sp) {
      var l, s :| l in c.locs && s in c.sts && TwoHops(ep, l, c.locs[l], s, c.sts[s], sp);
      assert LastWord(events, PutLoc(l, c.locs[l])) && LastWord(events, PutSt(s, c.sts[s]));
    }
  }

  lemma NoWord(e: Event)
    ensures !LastWord([], e)
  {
  }

  lemma NextWord(init: seq<Event>, last: Event, e: Event)
    ensures LastWord(init + [last], e) <==> e == last || (!SameObject(e, last) && LastWord(init, e))
  {
    hide SameObject;
    var events := init + [last];
    assert LastAt(events, |init|);
    forall i | 0 <= i < |init|
      ensures LastAt(events, i) <==> LastAt(init, i) && !SameObject(init[i], last)
    {
      assert forall j | 0 <= j < |init| :: events[j] == init[j];
      assert events[|init|] == last;
    }
    if LastWord(init, e) {
      var i :| LastAt(init, i) && init[i] == e;
      assert LastAt(events, i) <==> !SameObject(e, last);
      assert events[i] == e;
    }
  }

  ghost predicate Crosses(c: Catalog, e: Event) {
    e.PutSt? && CrossMatch(c, e.k, e.st)
  }

  /** The event disturbs the slice of EdgePlacement `k`. */
  ghost predicate CrossesFor(c: Catalog, e: Event, k: Key) {
    e.PutSt? && k in c.eps && CrossMatchFor(c, c.eps[k], e.k, e.st)
  }

  /** Of the events that put the SyncTarget or the Location, the latest one put the SyncTarget. */
  predicate TargetLast(events: seq<Event>, s: Key, l: Key) {
    events != [] &&
    var e := events[|events| - 1];
    (e.PutSt? && e.k == s) || (!(e.PutLoc? && e.k == l) && TargetLast(events[..|events| - 1], s, l))
  }

  predicate Matches(c: Catalog, s: Key, l: Key) {
    s in c.sts && l in c.locs && c.locs[l].instanceSelector(c.sts[s].labels)
  }

  /** What the loc <- st index really has: the spaces are compared for a new Location but not for a new SyncTarget. */
  predicate InIndex(c: Catalog, events: seq<Event>, s: Key, l: Key) {
    Matches(c, s, l) && (l.space == s.space || TargetLast(events, s, l))
  }

  ghost predicate LocsIndexedAfter(c: Catalog, index: Index<Key, Key>, events: seq<Event>) {
    forall s, l :: Holds(index, s, l) <==> InIndex(c, events, s, l)
  }

  /** The index is as it should be just when no match is there across spaces that came with its SyncTarget. */
  lemma LocsIndexedIff(c: Catalog, index: Index<Key, Key>, events: seq<Event>)
    requires LocsIndexedAfter(c, index, events)
    ensures LocsIndexed(c, index) <==> forall s, l | Matches(c, s, l) && TargetLast(events, s, l) :: l.space == s.space
  {
    hide TargetLast;
    if s, l :| Matches(c, s, l) && TargetLast(events, s, l) && l.space != s.space {
      assert Holds(index, s, l) && !LocSelects(l, c.locs[l], s, c.sts[s]);
    }
  }

  lemma LocsIndexFollows(was: Catalog, before: Index<Key, Key>, past: seq<Event>, e: Event, now: Index<Key, Key>)
    requires LocsIndexedAfter(was, before, past) && LocsIndexed(was, before)
    requires LocsIndexedAfter(AfterEvent(was, e), now, past + [e])
    ensures LocsIndexed(AfterEvent(was, e), now) <==> !Crosses(was, e)
  {
    hide LocsIndexed, LocsIndexedAfter;
    var c := AfterEvent(was, e);
    LocsIndexedIff(was, before, past);
    LocsIndexedIff(c, now, past + [e]);
    assert (past + [e])[..|past|] == past;
    if Crosses(was, e) {
      var l :| l in was.locs && l.space != e.k.space && was.locs[l].instanceSelector(e.st.labels);
      assert Matches(c, e.k, l) && TargetLast(past + [e], e.k, l);
    } else {
      forall s, l | Matches(c, s, l) && TargetLast(past + [e], s, l)
        ensures l.space == s.space
      {
        if !(e.PutSt? && e.k == s) {
          assert Matches(was, s, l) && TargetLast(past, s, l);
        }
      }
    }
  }

  lemma NoCrossing(c: Catalog, e: Event)
    ensures !Crosses(c, e) ==> forall k :: !CrossesFor(c, e, k)
  {
  }

  // ----- What the slices really have -----

  /** The SyncTarget makes the pair with a Location of another space that the EdgePlacement selects. */
  ghost predicate Across(c: Catalog, ep: EdgePlacement, k: Key, st: SyncTarget, sp: SinglePlacement) {
    exists l ::
      && l in c.locs && l.space != k.space && c.locs[l].instanceSelector(st.labels) && EpSelects(ep, c.locs[l])
      && sp == SinglePlacement(k.space, l.name, k.name, st.uid)
  }

  /** The event makes the resolver edit the slice of the EdgePlacement. */
  ghost predicate Concerns(past: seq<Event>, event: Event, e: Key) {
    var c := AfterEvents(EMPTY, past);
    e in c.eps &&
    match event
    case PutLoc(k, loc) => (k in c.locs && EpSelects(c.eps[e], c.locs[k])) || EpSelects(c.eps[e], loc)
    case PutSt(k, st) => ReachedBy(c, past, c.eps[e], k, st)
    case _ => false
  }

  /** By the index, or by a match in whatever space. */
  ghost predicate ReachedBy(c: Catalog, past: seq<Event>, ep: EdgePlacement, k: Key, st: SyncTarget) {
    exists l ::
      && l in c.locs && EpSelects(ep, c.locs[l])
      && (InIndex(c, past, k, l) || c.locs[l].instanceSelector(st.labels))
  }

  /** The event brings a pair into the slice of the EdgePlacement that is not called for, or is there already. */
  ghost predicate Adds(past: seq<Event>, event: Event, e: Key, sp: SinglePlacement) {
    var c := AfterEvents(EMPTY, past);
    event.PutSt? && e in c.eps && Across(c, c.eps[e], event.k, event.st, sp)
  }

  /** The event clears the pair out of the slice of the EdgePlacement, before it puts there what it finds. */
  ghost predicate Clears(past: seq<Event>, event: Event, e: Key, sp: SinglePlacement) {
    match event
    case PutEp(k, _) => k == e
    case DropEp(k) => k == e
    case PutLoc(k, _) => AtLoc(sp, k) && Concerns(past, event, e)
    case PutSt(k, _) => AtSt(sp, k) && Concerns(past, event, e)
  }

  ghost predicate ExtraSince(events: seq<Event>, i: nat, e: Key, sp: SinglePlacement)
    requires i < |events|
  {
    && Adds(events[..i], events[i], e, sp)
    && forall j | i < j < |events| :: !Clears(events[..j], events[j], e, sp)
  }

  /** A SyncTarget has brought the pair in across spaces, and no event since has cleared it out. */
  ghost predicate Extra(events: seq<Event>, e: Key, sp: SinglePlacement) {
    exists i :: 0 <= i < |events| && ExtraSince(events, i, e, sp)
  }

  ghost function Extras(events: seq<Event>, e: Key): iset<SinglePlacement> {
    iset sp: SinglePlacement | Extra(events, e, sp)
  }

  lemma ExtraStep(past: seq<Event>, event: Event, e: Key, sp: SinglePlacement)
    ensures Extra(past + [event], e, sp) <==>
            Adds(past, event, e, sp) || (Extra(past, e, sp) && !Clears(past, event, e, sp))
  {
    hide Adds, Clears;
    var events, n := past + [event], |past|;
    assert events[..n] == past;
    forall i | 0 <= i < n
      ensures ExtraSince(events, i, e, sp) <==> ExtraSince(past, i, e, sp) && !Clears(past, event, e, sp)
    {
      assert forall j | 0 <= j < n :: events[..j] == past[..j] && events[j] == past[j];
    }
    assert ExtraSince(events, n, e, sp) <==> Adds(past, event, e, sp);
    if Extra(past, e, sp) && !Clears(past, event, e, sp) {
      var i :| 0 <= i < |past| && ExtraSince(past, i, e, sp);
      assert ExtraSince(events, i, e, sp);
    }
  }

  /** What is called for is there once, and what is extra is there in addition. */
  ghost predicate Tally(c: Catalog, ep: EdgePlacement, slice: seq<SinglePlacement>, extra: iset<SinglePlacement>) {
    forall sp ::
      var called := if CalledFor(c, ep, sp) then 1 else 0;
      if sp in extra then Count(slice, sp) > called else Count(slice, sp) == called
  }

  /** So the slice is right exactly when nothing is extra. */
  lemma RightIff(c: Catalog, ep: EdgePlacement, slice: seq<SinglePlacement>, extra: iset<SinglePlacement>)
    requires Tally(c, ep, slice, extra)
    ensures SliceIs(c, ep, slice) <==> extra == iset{}
  {
    hide CalledFor, Distinct;
    CountDistinct(slice);
    if sp :| sp in extra {
      assert Count(slice, sp) > if CalledFor(c, ep, sp) then 1 else 0;
      assert CalledFor(c, ep, sp) ==> Count(slice, sp) > 1;
    } else {
      assert forall sp :: Count(slice, sp) == if CalledFor(c, ep, sp) then 1 else 0;
    }
  }

  lemma RightIsTally(c: Catalog, ep: EdgePlacement, slice: seq<SinglePlacement>)
    requires SliceIs(c, ep, slice)
    ensures Tally(c, ep, slice, iset{})
  {
    hide CalledFor, Distinct;
    CountDistinct(slice);
  }

  // ----- Slices when a Location or a SyncTarget goes or comes -----

  function WithoutLoc(c: Catalog, k: Key): Catalog {
    c.(locs := c.locs - {k})
  }

  function WithLoc(c: Catalog, k: Key, loc: Location): Catalog {
    c.(locs := c.locs[k := loc])
  }

  function WithSt(c: Catalog, k: Key, st: SyncTarget): Catalog {
    c.(sts := c.sts[k := st])
  }

  predicate AtLoc(sp: SinglePlacement, k: Key) {
    sp.cluster == k.space && sp.locationName == k.name
  }

  predicate AtSt(sp: SinglePlacement, k: Key) {
    sp.cluster == k.space && sp.syncTargetName == k.name
  }

  /** `kept` is the slice less those that `gone` is about. */
  ghost predicate Cleaned(slice: seq<SinglePlacement>, kept: seq<SinglePlacement>, gone: SinglePlacement -> bool) {
    forall sp :: Count(kept, sp) == if gone(sp) then 0 else Count(slice, sp)
  }

  ghost predicate SinglesOfLoc(c: Catalog, k: Key, loc: Location, singles: seq<SinglePlacement>) {
    && Distinct(singles)
    && forall sp :: sp in singles <==> exists s ::
         s in c.sts && LocSelects(k, loc, s, c.sts[s]) && sp == Single(k, s, c.sts[s])
  }

  lemma ExtendedByLoc(c: Catalog, ep: EdgePlacement, k: Key, loc: Location, slice: seq<SinglePlacement>,
                      singles: seq<SinglePlacement>)
    requires SliceIs(WithoutLoc(c, k), ep, slice) && SinglesOfLoc(c, k, loc, singles) && EpSelects(ep, loc)
    ensures SliceIs(WithLoc(c, k, loc), ep, slice + singles)
  {
    var c0, c1 := WithoutLoc(c, k), WithLoc(c, k, loc);
    forall sp
      ensures sp in slice + singles <==> CalledFor(c1, ep, sp)
      ensures sp in slice ==> !AtLoc(sp, k)
      ensures sp in singles ==> AtLoc(sp, k)
    {
      if sp in slice {
        var l, s :| Path(c0, ep, l, s) && sp == Single(l, s, c0.sts[s]);
        assert Path(c1, ep, l, s);
      }
      if sp in singles {
        var s :| s in c.sts && LocSelects(k, loc, s, c.sts[s]) && sp == Single(k, s, c.sts[s]);
        assert Path(c1, ep, k, s);
      }
      if CalledFor(c1, ep, sp) {
        var l, s :| Path(c1, ep, l, s) && sp == Single(l, s, c1.sts[s]);
        assert l != k ==> Path(c0, ep, l, s);
      }
    }
    DistinctTogether(slice, singles);
  }

  lemma SinglesCount(c: Catalog, k: Key, loc: Location, singles: seq<SinglePlacement>, sp: SinglePlacement)
    requires SinglesOfLoc(c, k, loc, singles)
    ensures Count(singles, sp) ==
            if exists s :: s in c.sts && LocSelects(k, loc, s, c.sts[s]) && sp == Single(k, s, c.sts[s]) then 1 else 0
    ensures Count(singles, sp) > 0 ==> AtLoc(sp, k)
  {
    CountDistinct(singles);
  }

  /** What is called for after a Location was put. */
  lemma CalledAfterLoc(c: Catalog, ep: EdgePlacement, k: Key, loc: Location, sp: SinglePlacement)
    ensures var c1 := WithLoc(c, k, loc);
            && (AtLoc(sp, k) ==>
                  (CalledFor(c1, ep, sp) <==>
                   && EpSelects(ep, loc)
                   && exists s :: s in c.sts && LocSelects(k, loc, s, c.sts[s]) && sp == Single(k, s, c.sts[s])))
            && (!AtLoc(sp, k) ==> (CalledFor(c1, ep, sp) <==> CalledFor(c, ep, sp)))
            && (!EpSelects(ep, loc) && (k in c.locs ==> !EpSelects(ep, c.locs[k])) ==>
                  (CalledFor(c1, ep, sp) <==> CalledFor(c, ep, sp)))
  {
    hide EpSelects;
    var c1 := WithLoc(c, k, loc);
    if CalledFor(c1, ep, sp) {
      var l, s :| Path(c1, ep, l, s) && sp == Single(l, s, c1.sts[s]);
      assert l != k ==> Path(c, ep, l, s);
    }
    if CalledFor(c, ep, sp) {
      var l, s :| Path(c, ep, l, s) && sp == Single(l, s, c.sts[s]);
      assert l != k ==> Path(c1, ep, l, s);
    }
    if s :| s in c.sts && LocSelects(k, loc, s, c.sts[s]) && sp == Single(k, s, c.sts[s]) {
      assert EpSelects(ep, loc) ==> Path(c1, ep, k, s);
    }
  }

  lemma LocChangesTally(c: Catalog, ep: EdgePlacement, k: Key, loc: Location, slice: seq<SinglePlacement>,
                        kept: seq<SinglePlacement>, singles: seq<SinglePlacement>, extra: iset<SinglePlacement>)
    requires Tally(c, ep, slice, extra) && Cleaned(slice, kept, sp => AtLoc(sp, k)) && SinglesOfLoc(c, k, loc, singles)
    ensures Tally(WithLoc(c, k, loc), ep, if EpSelects(ep, loc) then kept + singles else kept,
                  iset sp | sp in extra && !AtLoc(sp, k))
  {
    hide CalledFor, EpSelects, SinglesOfLoc, LocSelects, AtLoc, WithLoc, Count;
    forall sp
      ensures var called := if CalledFor(WithLoc(c, k, loc), ep, sp) then 1 else 0;
              var next := if EpSelects(ep, loc) then kept + singles else kept;
              if sp in extra && !AtLoc(sp, k) then Count(next, sp) > called else Count(next, sp) == called
    {
      CalledAfterLoc(c, ep, k, loc, sp);
      SinglesCount(c, k, loc, singles, sp);
      CountTogether(kept, singles, sp);
    }
  }

  lemma LocLeavesTally(c: Catalog, ep: EdgePlacement, k: Key, loc: Location, slice: seq<SinglePlacement>,
                       extra: iset<SinglePlacement>)
    requires Tally(c, ep, slice, extra) && (k in c.locs ==> !EpSelects(ep, c.locs[k])) && !EpSelects(ep, loc)
    ensures Tally(WithLoc(c, k, loc), ep, slice, extra)
  {
    hide CalledFor, EpSelects, WithLoc, Count;
    forall sp { CalledAfterLoc(c, ep, k, loc, sp); }
  }

  /** What is called for after a SyncTarget was put. */
  lemma CalledAfterSt(c: Catalog, ep: EdgePlacement, k: Key, st: SyncTarget, sp: SinglePlacement)
    ensures var c1 := WithSt(c, k, st);
            && (AtSt(sp, k) ==>
                  (CalledFor(c1, ep, sp) <==>
                   exists l :: l in c.locs && EpSelects(ep, c.locs[l]) && LocSelects(l, c.locs[l], k, st)
                               && sp == Single(l, k, st)))
            && (!AtSt(sp, k) ==> (CalledFor(c1, ep, sp) <==> CalledFor(c, ep, sp)))
            && ((forall l :: !Path(c, ep, l, k)) && (forall l :: !Path(c1, ep, l, k)) ==>
                  (CalledFor(c1, ep, sp) <==> CalledFor(c, ep, sp)))
  {
    hide EpSelects;
    var c1 := WithSt(c, k, st);
    if CalledFor(c1, ep, sp) {
      var l, s :| Path(c1, ep, l, s) && sp == Single(l, s, c1.sts[s]);
      assert s != k ==> Path(c, ep, l, s);
    }
    if CalledFor(c, ep, sp) {
      var l, s :| Path(c, ep, l, s) && sp == Single(l, s, c.sts[s]);
      assert s != k ==> Path(c1, ep, l, s);
    }
    if l :| l in c.locs && EpSelects(ep, c.locs[l]) && LocSelects(l, c.locs[l], k, st) && sp == Single(l, k, st) {
      assert Path(c1, ep, l, k);
    }
  }

  /** The Locations that made the pairs of a SyncTarget. */
  ghost predicate MadeFrom(c: Catalog, ep: EdgePlacement, locs: seq<Key>, k: Key, st: SyncTarget,
                           made: seq<SinglePlacement>) {
    && Distinct(locs)
    && (forall l :: l in locs <==> l in c.locs && c.locs[l].instanceSelector(st.labels) && EpSelects(ep, c.locs[l]))
    && |made| == |locs|
    && forall i | 0 <= i < |locs| :: made[i] == SinglePlacement(k.space, locs[i].name, k.name, st.uid)
  }

  /** A match across spaces makes a pair that is not called for, or makes one once more. */
  lemma MadeCounts(c: Catalog, ep: EdgePlacement, locs: seq<Key>, k: Key, st: SyncTarget, made: seq<SinglePlacement>,
                   sp: SinglePlacement)
    requires MadeFrom(c, ep, locs, k, st, made) && AtSt(sp, k)
    ensures var called := if CalledFor(WithSt(c, k, st), ep, sp) then 1 else 0;
            if Across(c, ep, k, st, sp) then Count(made, sp) > called else Count(made, sp) == called
  {
    hide EpSelects, CalledFor, WithSt;
    CalledAfterSt(c, ep, k, st, sp);
    var here := Key(k.space, sp.locationName);
    if CalledFor(WithSt(c, k, st), ep, sp) {
      assert here in locs;
    }
    if Across(c, ep, k, st, sp) {
      var l :| && l in c.locs && l.space != k.space && c.locs[l].instanceSelector(st.labels)
               && EpSelects(ep, c.locs[l]) && sp == SinglePlacement(k.space, l.name, k.name, st.uid);
      assert l in locs;
      var i :| 0 <= i < |locs| && locs[i] == l;
      assert made[i] == sp;
      if here in locs && CalledFor(WithSt(c, k, st), ep, sp) {
        var j :| 0 <= j < |locs| && locs[j] == here;
        assert made[j] == sp;
        CountTwice(made, i, j);
      }
    } else {
      forall i | 0 <= i < |made| && made[i] == sp
        ensures locs[i] == here
      {
        assert locs[i] in locs;
      }
      CountOnce(made, sp);
      if CalledFor(WithSt(c, k, st), ep, sp) {
        var j :| 0 <= j < |locs| && locs[j] == here;
        assert made[j] == sp;
      }
      if sp in made {
        var i :| 0 <= i < |made| && made[i] == sp;
        assert here in locs && LocSelects(here, c.locs[here], k, st) && sp == Single(here, k, st);
      }
    }
  }

  lemma MadeAtSt(c: Catalog, ep: EdgePlacement, locs: seq<Key>, k: Key, st: SyncTarget, made: seq<SinglePlacement>,
                 sp: SinglePlacement)
    requires MadeFrom(c, ep, locs, k, st, made)
    ensures !AtSt(sp, k) ==> Count(made, sp) == 0
  {
    if sp in made {
      var i :| 0 <= i < |made| && made[i] == sp;
    }
  }

  lemma StChangesTally(c: Catalog, ep: EdgePlacement, k: Key, st: SyncTarget, slice: seq<SinglePlacement>,
                       kept: seq<SinglePlacement>, locs: seq<Key>, made: seq<SinglePlacement>,
                       extra: iset<SinglePlacement>)
    requires Tally(c, ep, slice, extra) && Cleaned(slice, kept, sp => AtSt(sp, k))
    requires MadeFrom(c, ep, locs, k, st, made)
    ensures Tally(WithSt(c, k, st), ep, kept + made,
                  iset sp | if AtSt(sp, k) then Across(c, ep, k, st, sp) else sp in extra)
  {
    hide CalledFor, EpSelects, MadeFrom, Across, AtSt, WithSt, Count;
    forall sp
      ensures var called := if CalledFor(WithSt(c, k, st), ep, sp) then 1 else 0;
              if (if AtSt(sp, k) then Across(c, ep, k, st, sp) else sp in extra)
              then Count(kept + made, sp) > called else Count(kept + made, sp) == called
    {
      CountTogether(kept, made, sp);
      if AtSt(sp, k) {
        MadeCounts(c, ep, locs, k, st, made, sp);
      } else {
        CalledAfterSt(c, ep, k, st, sp);
        MadeAtSt(c, ep, locs, k, st, made, sp);
      }
    }
  }

  lemma StLeavesTally(c: Catalog, ep: EdgePlacement, k: Key, st: SyncTarget, slice: seq<SinglePlacement>,
                      extra: iset<SinglePlacement>)
    requires Tally(c, ep, slice, extra)
    requires (forall l :: !Path(c, ep, l, k)) && forall l :: !Path(WithSt(c, k, st), ep, l, k)
    ensures Tally(WithSt(c, k, st), ep, slice, extra)
  {
    hide CalledFor, EpSelects, Path, WithSt, Count;
    forall sp { CalledAfterSt(c, ep, k, st, sp); }
  }

  // ----- What is extra after an event -----

  lemma ExtrasAfterLoc(past: seq<Event>, k: Key, loc: Location, e: Key)
    ensures Extras(past + [PutLoc(k, loc)], e) ==
            if Concerns(past, PutLoc(k, loc), e) then iset sp | sp in Extras(past, e) && !AtLoc(sp, k)
            else Extras(past, e)
  {
    hide Extra, Concerns, AtLoc;
    forall sp { ExtraStep(past, PutLoc(k, loc), e, sp); }
  }

  lemma ExtrasAfterSt(past: seq<Event>, k: Key, st: SyncTarget, e: Key)
    requires e in AfterEvents(EMPTY, past).eps
    ensures var c := AfterEvents(EMPTY, past);
            Extras(past + [PutSt(k, st)], e) ==
            if Concerns(past, PutSt(k, st), e)
            then iset sp | if AtSt(sp, k) then Across(c, c.eps[e], k, st, sp) else sp in Extras(past, e)
            else Extras(past, e)
  {
    hide Extra, ReachedBy, EpSelects, AfterEvents;
    var c := AfterEvents(EMPTY, past);
    forall sp
      ensures Across(c, c.eps[e], k, st, sp) ==> AtSt(sp, k) && ReachedBy(c, past, c.eps[e], k, st)
    {
      AcrossReaches(c, past, c.eps[e], k, st, sp);
    }
    hide Across, AtSt;
    forall sp { ExtraStep(past, PutSt(k, st), e, sp); }
  }

  /** A SyncTarget that is put again, and now crosses no spaces, takes its extra pairs away where it is in use. */
  lemma PutAgainRights(past: seq<Event>, k: Key, st: SyncTarget, e: Key, sp: SinglePlacement)
    requires Concerns(past, PutSt(k, st), e) && !CrossesFor(AfterEvents(EMPTY, past), PutSt(k, st), e)
    ensures Extra(past + [PutSt(k, st)], e, sp) <==> Extra(past, e, sp) && !AtSt(sp, k)
  {
    hide Extra, AfterEvents, CrossesFor;
    CrossesForIff(past, PutSt(k, st), e);
    hide Concerns, Adds;
    ExtraStep(past, PutSt(k, st), e, sp);
  }

  lemma AcrossReaches(c: Catalog, past: seq<Event>, ep: EdgePlacement, k: Key, st: SyncTarget, sp: SinglePlacement)
    ensures Across(c, ep, k, st, sp) ==> AtSt(sp, k) && ReachedBy(c, past, ep, k, st)
  {
    hide EpSelects, InIndex;
  }

  lemma ExtrasAfterEp(past: seq<Event>, event: Event, e: Key)
    requires event.PutEp? || event.DropEp?
    ensures Extras(past + [event], e) == if event.k == e then iset{} else Extras(past, e)
  {
    hide Extra;
    forall sp { ExtraStep(past, event, e, sp); }
  }

  /** Something is brought in across spaces exactly when the event crosses spaces for the EdgePlacement. */
  lemma CrossesForIff(past: seq<Event>, event: Event, e: Key)
    ensures CrossesFor(AfterEvents(EMPTY, past), event, e) <==> exists sp :: Adds(past, event, e, sp)
  {
    hide EpSelects, AfterEvents;
    var c := AfterEvents(EMPTY, past);
    if CrossesFor(c, event, e) {
      var k, st := event.k, event.st;
      var l :| && l in c.locs && l.space != k.space && c.locs[l].instanceSelector(st.labels)
               && EpSelects(c.eps[e], c.locs[l]);
      assert Adds(past, event, e, SinglePlacement(k.space, l.name, k.name, st.uid));
    }
  }

  /** Where nothing was extra, something is exactly after an event that crosses spaces. */
  lemma ExtrasFromNone(past: seq<Event>, event: Event, e: Key)
    requires Extras(past, e) == iset{}
    ensures Extras(past + [event], e) == iset{} <==> !CrossesFor(AfterEvents(EMPTY, past), event, e)
  {
    hide Extra, CrossesFor, Adds, Clears;
    CrossesForIff(past, event, e);
    forall sp
      ensures sp in Extras(past + [event], e) <==> Adds(past, event, e, sp)
    {
      ExtraStep(past, event, e, sp);
      assert sp !in Extras(past, e);
    }
  }

  // ----- Filters -----

  method Selects(ep: EdgePlacement, loc: Location) returns (yes: bool)
    ensures yes <==> EpSelects(ep, loc)
    ensures yes <==> exists i :: 0 <= i < |ep.locationSelectors| && ep.locationSelectors[i](loc.labels)
  {
    for i := 0 to |ep.locationSelectors|
      invariant forall h | 0 <= h < i :: !ep.locationSelectors[h](loc.labels)
    {
      if ep.locationSelectors[i](loc.labels) {
        return true;
      }
    }
    return false;
  }

  method FilterStsByLoc(sts: map<Key, SyncTarget>, l: Key, loc: Location) returns (filtered: seq<Key>)
    ensures Distinct(filtered) && forall s :: s in filtered <==> s in sts && LocSelects(l, loc, s, sts[s])
    ensures forall s :: s in filtered <==> s in sts && s.space == l.space && loc.instanceSelector(sts[s].labels)
  {
    var all := VisitOrder(sts.Keys);
    assert forall s :: s in all <==> s in Elements(all);
    filtered := [];
    for i := 0 to |all|
      invariant Distinct(filtered) && forall s :: s in filtered <==> s in all[..i] && LocSelects(l, loc, s, sts[s])
    {
      PrefixElements(all, i);
      assert all[..i + 1] == all[..i] + [all[i]];
      if all[i].space == l.space && loc.instanceSelector(sts[all[i]].labels) {
        filtered := filtered + [all[i]];
      }
    }
    assert all[..|all|] == all;
  }

  method FilterEpsByLoc(eps: map<Key, EdgePlacement>, loc: Location) returns (filtered: seq<Key>)
    ensures Distinct(filtered) && forall e :: e in filtered <==> e in eps && EpSelects(eps[e], loc)
    ensures forall e :: e in filtered <==> e in eps && exists i ::
              0 <= i < |eps[e].locationSelectors| && eps[e].locationSelectors[i](loc.labels)
  {
    forall e | e in eps { AnySelectorWill(eps[e], loc); }
    hide EpSelects;
    var all := VisitOrder(eps.Keys);
    assert forall e :: e in all <==> e in Elements(all);
    filtered := [];
    for i := 0 to |all|
      invariant Distinct(filtered) && forall e :: e in filtered <==> e in all[..i] && EpSelects(eps[e], loc)
    {
      PrefixElements(all, i);
      assert all[..i + 1] == all[..i] + [all[i]];
      var yes := Selects(eps[all[i]], loc);
      if yes {
        filtered := filtered + [all[i]];
      }
    }
    assert all[..|all|] == all;
  }

  /** The spaces are not compared. */
  method FilterLocsBySt(locs: map<Key, Location>, st: SyncTarget) returns (filtered: seq<Key>)
    ensures Distinct(filtered) && forall l :: l in filtered <==> l in locs && locs[l].instanceSelector(st.labels)
  {
    var all := VisitOrder(locs.Keys);
    assert forall l :: l in all <==> l in Elements(all);
    filtered := [];
    for i := 0 to |all|
      invariant Distinct(filtered) && forall l ::
                  l in filtered <==> l in all[..i] && locs[l].instanceSelector(st.labels)
    {
      PrefixElements(all, i);
      assert all[..i + 1] == all[..i] + [all[i]];
      if locs[all[i]].instanceSelector(st.labels) {
        filtered := filtered + [all[i]];
      }
    }
    assert all[..|all|] == all;
  }

  method FilterLocsByEp(locs: map<Key, Location>, all: seq<Key>, ep: EdgePlacement) returns (filtered: seq<Key>)
    requires Distinct(all) && forall l | l in all :: l in locs
    ensures Distinct(filtered) && forall l :: l in filtered <==> l in all && EpSelects(ep, locs[l])
    ensures forall l :: l in filtered <==> l in all && exists i ::
              0 <= i < |ep.locationSelectors| && ep.locationSelectors[i](locs[l].labels)
  {
    forall l | l in all { AnySelectorWill(ep, locs[l]); }
    hide EpSelects;
    filtered := [];
    for i := 0 to |all|
      invariant Distinct(filtered) && forall l :: l in filtered <==> l in all[..i] && EpSelects(ep, locs[l])
    {
      PrefixElements(all, i);
      assert all[..i + 1] == all[..i] + [all[i]];
      var yes := Selects(ep, locs[all[i]]);
      if yes {
        filtered := filtered + [all[i]];
      }
    }
    assert all[..|all|] == all;
  }

  method CleanByLoc(slice: seq<SinglePlacement>, k: Key) returns (kept: seq<SinglePlacement>)
    ensures Cleaned(slice, kept, sp => AtLoc(sp, k))
    ensures forall sp :: Count(kept, sp) ==
              if sp.cluster == k.space && sp.locationName == k.name then 0 else Count(slice, sp)
  {
    hide Count;
    kept := [];
    CountNone<SinglePlacement>();
    for i := 0 to |slice|
      invariant forall sp :: Count(kept, sp) == if AtLoc(sp, k) then 0 else Count(slice[..i], sp)
    {
      assert slice[..i + 1] == slice[..i] + [slice[i]];
      CountOneMore(slice[..i], slice[i]);
      CountOneMore(kept, slice[i]);
      if slice[i].cluster != k.space || slice[i].locationName != k.name {
        kept := kept + [slice[i]];
      }
    }
    assert slice[..|slice|] == slice;
  }

  method CleanBySt(slice: seq<SinglePlacement>, k: Key) returns (kept: seq<SinglePlacement>)
    ensures Cleaned(slice, kept, sp => AtSt(sp, k))
    ensures forall sp :: Count(kept, sp) ==
              if sp.cluster == k.space && sp.syncTargetName == k.name then 0 else Count(slice, sp)
  {
    hide Count;
    kept := [];
    CountNone<SinglePlacement>();
    for i := 0 to |slice|
      invariant forall sp :: Count(kept, sp) == if AtSt(sp, k) then 0 else Count(slice[..i], sp)
    {
      assert slice[..i + 1] == slice[..i] + [slice[i]];
      CountOneMore(slice[..i], slice[i]);
      CountOneMore(kept, slice[i]);
      if slice[i].cluster != k.space || slice[i].syncTargetName != k.name {
        kept := kept + [slice[i]];
      }
    }
    assert slice[..|slice|] == slice;
  }

  method MakeSinglesForLoc(c: Catalog, k: Key, loc: Location, sts: seq<Key>) returns (made: seq<SinglePlacement>)
    requires Distinct(sts) && forall s :: s in sts <==> s in c.sts && LocSelects(k, loc, s, c.sts[s])
    ensures SinglesOfLoc(c, k, loc, made)
    ensures forall sp :: sp in made <==> exists s ::
              && s in c.sts && s.space == k.space && loc.instanceSelector(c.sts[s].labels)
              && sp == SinglePlacement(k.space, k.name, s.name, c.sts[s].uid)
  {
    made := [];
    for i := 0 to |sts|
      invariant |made| == i && forall h | 0 <= h < i :: made[h] == Single(k, sts[h], c.sts[sts[h]])
    {
      made := made + [SinglePlacement(k.space, k.name, sts[i].name, c.sts[sts[i]].uid)];
    }
    forall h, i | 0 <= h < i < |made|
      ensures made[h] != made[i]
    {
      assert sts[h] in sts && sts[i] in sts;
    }
    forall sp
      ensures sp in made <==> exists s :: s in c.sts && LocSelects(k, loc, s, c.sts[s]) && sp == Single(k, s, c.sts[s])
    {
      if s :| s in c.sts && LocSelects(k, loc, s, c.sts[s]) && sp == Single(k, s, c.sts[s]) {
        assert s in sts;
        var i :| 0 <= i < |sts| && sts[i] == s;
        assert made[i] == sp;
      }
      if sp in made {
        var i :| 0 <= i < |made| && made[i] == sp;
        assert sts[i] in sts;
      }
    }
  }

  /** The space of the SyncTarget stands for that of the Location too. */
  method MakeSinglesForSt(locs: seq<Key>, k: Key, st: SyncTarget) returns (made: seq<SinglePlacement>)
    ensures |made| == |locs| && forall i | 0 <= i < |locs| ::
              made[i] == SinglePlacement(k.space, locs[i].name, k.name, st.uid)
  {
    made := [];
    for i := 0 to |locs|
      invariant |made| == i && forall h | 0 <= h < i ::
                  made[h] == SinglePlacement(k.space, locs[h].name, k.name, st.uid)
    {
      made := made + [SinglePlacement(k.space, locs[i].name, k.name, st.uid)];
    }
  }

  // ----- The reverse indices -----

  lemma HoldsOneMore(index: Index<Key, Key>, row: Key, x: Key)
    ensures forall r, y :: Holds(AddTo(index, row, x), r, y) <==> Holds(index, r, y) || (r == row && y == x)
  {
  }

  /** Makes `x` a member of just these rows. */
  method Reindex(index: Index<Key, Key>, x: Key, rows: set<Key>) returns (next: Index<Key, Key>)
    ensures forall r, y :: Holds(next, r, y) <==> if y == x then r in rows else Holds(index, r, y)
  {
    next := index;
    var have := VisitOrder(index.Keys);
    assert forall r :: r in have <==> r in Elements(have);
    for i := 0 to |have|
      invariant next.Keys == index.Keys
      invariant forall r, y :: Holds(next, r, y) <==> Holds(index, r, y) && !(y == x && r in have[..i] && r !in rows)
    {
      assert have[..i + 1] == have[..i] + [have[i]];
      if have[i] !in rows {
        next := next[have[i] := next[have[i]] - {x}];
      }
    }
    assert have[..|have|] == have;
    ghost var mid := next;
    var want := VisitOrder(rows);
    assert forall r :: r in want <==> r in Elements(want);
    for i := 0 to |want|
      invariant forall r, y :: Holds(next, r, y) <==> Holds(mid, r, y) || (y == x && r in want[..i])
    {
      assert want[..i + 1] == want[..i] + [want[i]];
      HoldsOneMore(next, want[i], x);
      next := AddTo(next, want[i], x);
    }
    assert want[..|want|] == want;
  }

  /** Takes `x` out of all rows. */
  method DropFromRows(index: Index<Key, Key>, x: Key) returns (next: Index<Key, Key>)
    ensures forall r, y :: Holds(next, r, y) <==> Holds(index, r, y) && y != x
  {
    next := index;
    var have := VisitOrder(index.Keys);
    assert forall r :: r in have <==> r in Elements(have);
    for i := 0 to |have|
      invariant next.Keys == index.Keys
      invariant forall r, y :: Holds(next, r, y) <==> Holds(index, r, y) && !(y == x && r in have[..i])
    {
      assert have[..i + 1] == have[..i] + [have[i]];
      next := next[have[i] := next[have[i]] - {x}];
    }
    assert have[..|have|] == have;
  }

  method Union(index: Index<Key, Key>, rows: seq<Key>) returns (all: set<Key>)
    ensures forall x :: x in all <==> exists r :: r in rows && Holds(index, r, x)
  {
    all := {};
    for i := 0 to |rows|
      invariant forall x :: x in all <==> exists r :: r in rows[..i] && Holds(index, r, x)
    {
      assert forall r :: r in rows[..i + 1] <==> r in rows[..i] || r == rows[i];
      assert forall x :: x in Bucket(index, rows[i]) <==> Holds(index, rows[i], x);
      all := all + Bucket(index, rows[i]);
    }
    assert rows[..|rows|] == rows;
  }

  lemma EpsIndexAfterLoc(c: Catalog, index: Index<Key, Key>, k: Key, loc: Location, selecting: set<Key>)
    requires EpsIndexed(c, index) && forall e :: e in selecting <==> e in c.eps && EpSelects(c.eps[e], loc)
    ensures EpsIndexed(WithLoc(c, k, loc), index[k := selecting])
  {
  }

  lemma LocsIndexAfterLoc(c: Catalog, index: Index<Key, Key>, past: seq<Event>, k: Key, loc: Location, rows: set<Key>,
                          next: Index<Key, Key>)
    requires LocsIndexedAfter(c, index, past) && forall s ::
               s in rows <==> s in c.sts && LocSelects(k, loc, s, c.sts[s])
    requires forall r, y :: Holds(next, r, y) <==> if y == k then r in rows else Holds(index, r, y)
    ensures LocsIndexedAfter(WithLoc(c, k, loc), next, past + [PutLoc(k, loc)])
  {
    var events := past + [PutLoc(k, loc)];
    assert events[..|past|] == past;
    assert forall s, l :: TargetLast(events, s, l) <==> l != k && TargetLast(past, s, l);
  }

  lemma LocsIndexAfterSt(c: Catalog, index: Index<Key, Key>, past: seq<Event>, k: Key, st: SyncTarget,
                         selecting: set<Key>)
    requires LocsIndexedAfter(c, index, past)
    requires forall l :: l in selecting <==> l in c.locs && c.locs[l].instanceSelector(st.labels)
    ensures LocsIndexedAfter(WithSt(c, k, st), index[k := selecting], past + [PutSt(k, st)])
  {
    var events := past + [PutSt(k, st)];
    assert events[..|past|] == past;
    assert forall s, l :: TargetLast(events, s, l) <==> s == k || TargetLast(past, s, l);
    var c1, next := WithSt(c, k, st), index[k := selecting];
    forall s, l
      ensures Holds(next, s, l) <==> Matches(c1, s, l) && (l.space == s.space || TargetLast(events, s, l))
    {
      assert s != k ==> (Matches(c1, s, l) <==> Matches(c, s, l)) && (Holds(next, s, l) <==> Holds(index, s, l));
    }
  }

  lemma LocsIndexAfterEp(was: Catalog, c: Catalog, index: Index<Key, Key>, past: seq<Event>, e: Event)
    requires LocsIndexedAfter(was, index, past) && c.locs == was.locs && c.sts == was.sts && (e.PutEp? || e.DropEp?)
    ensures LocsIndexedAfter(c, index, past + [e])
  {
    assert (past + [e])[..|past|] == past;
    assert forall s, l :: TargetLast(past + [e], s, l) <==> TargetLast(past, s, l);
    assert forall s, l :: Matches(c, s, l) <==> Matches(was, s, l);
  }

  /** No EdgePlacement that reaches a SyncTarget is missed by way of the indices. */
  lemma UsersReach(c: Catalog, epIndex: Index<Key, Key>, locIndex: Index<Key, Key>, past: seq<Event>, k: Key, e: Key)
    requires EpsIndexed(c, epIndex) && LocsIndexedAfter(c, locIndex, past)
    ensures (exists l :: l in Bucket(locIndex, k) && Holds(epIndex, l, e)) <==>
            e in c.eps && exists l :: l in c.locs && EpSelects(c.eps[e], c.locs[l]) && InIndex(c, past, k, l)
  {
    hide EpSelects;
    if l :| l in Bucket(locIndex, k) && Holds(epIndex, l, e) {
      assert Holds(locIndex, k, l);
    }
    if e in c.eps {
      if l :| l in c.locs && EpSelects(c.eps[e], c.locs[l]) && InIndex(c, past, k, l) {
        assert Holds(locIndex, k, l) && Holds(epIndex, l, e);
        assert l in Bucket(locIndex, k);
      }
    }
  }

  /** Which EdgePlacements select a Location that matches a SyncTarget, in whatever space. */
  lemma MatchesReach(c: Catalog, epIndex: Index<Key, Key>, st: SyncTarget, matching: seq<Key>, e: Key)
    requires EpsIndexed(c, epIndex)
    requires forall l :: l in matching <==> l in c.locs && c.locs[l].instanceSelector(st.labels)
    ensures (exists l :: l in matching && Holds(epIndex, l, e)) <==>
            e in c.eps && exists l ::
              l in c.locs && EpSelects(c.eps[e], c.locs[l]) && c.locs[l].instanceSelector(st.labels)
  {
    hide EpSelects;
    if l :| l in matching && Holds(epIndex, l, e) {
      assert EpSelects(c.eps[e], c.locs[l]);
    }
    if e in c.eps {
      if l :| l in c.locs && EpSelects(c.eps[e], c.locs[l]) && c.locs[l].instanceSelector(st.labels) {
        assert l in matching && Holds(epIndex, l, e);
      }
    }
  }

  /** An EdgePlacement that is not reached has no path to the SyncTarget, before or after. */
  lemma NotReached(c: Catalog, past: seq<Event>, ep: EdgePlacement, k: Key, st: SyncTarget)
    requires !ReachedBy(c, past, ep, k, st)
    ensures forall l :: !Path(c, ep, l, k) && !Path(WithSt(c, k, st), ep, l, k)
  {
    hide EpSelects;
  }

  /** While slices are being edited: those in `done` are as the events say, the others are as before. */
  ghost predicate Edited(c: Catalog, events: seq<Event>, before: map<Key, seq<SinglePlacement>>,
                         now: map<Key, seq<SinglePlacement>>, done: set<Key>) {
    forall e | e in c.eps ::
      && e in now && e in before
      && if e in done then Tally(c, c.eps[e], now[e], Extras(events, e)) else now[e] == before[e]
  }

  lemma EditedOne(c: Catalog, events: seq<Event>, before: map<Key, seq<SinglePlacement>>,
                  now: map<Key, seq<SinglePlacement>>, done: set<Key>, e: Key, slice: seq<SinglePlacement>)
    requires Edited(c, events, before, now, done) && (e in c.eps ==> Tally(c, c.eps[e], slice, Extras(events, e)))
    ensures Edited(c, events, before, now[e := slice], done + {e})
  {
    hide Tally, Extras;
  }

  ghost predicate Tallied(c: Catalog, events: seq<Event>, slices: map<Key, seq<SinglePlacement>>) {
    forall e | e in c.eps :: e in slices && Tally(c, c.eps[e], slices[e], Extras(events, e))
  }

  class Resolver {
    var catalog: Catalog
    var epsBySelectedLoc: Index<Key, Key>
    var locsBySelectedSt: Index<Key, Key>
    /** The SinglePlacementSlices, by the key of their EdgePlacement. */
    var slices: map<Key, seq<SinglePlacement>>
    /** The changes that the informers have picked up so far. */
    ghost var history: seq<Event>

    ghost predicate IndexedFor(c: Catalog, events: seq<Event>)
      reads this
    {
      EpsIndexed(c, epsBySelectedLoc) && LocsIndexedAfter(c, locsBySelectedSt, events)
    }

    /** The indices and the slices are what the history says. */
    ghost predicate Valid()
      reads this
    {
      && catalog == AfterEvents(EMPTY, history)
      && IndexedFor(catalog, history)
      && Tallied(catalog, history, slices)
    }

    ghost predicate Right()
      reads this
    {
      EpsIndexed(catalog, epsBySelectedLoc) && LocsIndexed(catalog, locsBySelectedSt) && SlicesRight(catalog, slices)
    }

    constructor ()
      ensures Valid() && Right() && history == []
    {
      catalog, history := EMPTY, [];
      epsBySelectedLoc, locsBySelectedSt, slices := map[], map[], map[];
    }

    /**
     In every reachable state a slice is right if and only if no pair is extra: none that a SyncTarget has
     brought in across spaces since the slice was last cleared of it.
     */
    lemma SliceRightIff(e: Key)
      requires Valid() && e in catalog.eps
      ensures e in slices
      ensures SliceIs(catalog, catalog.eps[e], slices[e]) <==> forall sp :: !Extra(history, e, sp)
      ensures forall sp :: sp in slices[e] <==> CalledFor(catalog, catalog.eps[e], sp) || Extra(history, e, sp)
    {
      hide SliceIs, CalledFor, Extra, EpsIndexed, LocsIndexedAfter, AfterEvents;
      RightIff(catalog, catalog.eps[e], slices[e], Extras(history, e));
      assert forall sp :: sp in Extras(history, e) <==> Extra(history, e, sp);
      forall sp
        ensures sp in slices[e] <==> CalledFor(catalog, catalog.eps[e], sp) || Extra(history, e, sp)
      {
        assert sp in slices[e] <==> Count(slices[e], sp) > 0;
      }
    }

    /**
     The slice of an EdgePlacement in terms of the last words on everything: by some selector of the EdgePlacement
     to a Location, and by that to a SyncTarget of the same space; and the extra pairs.
     */
    lemma SliceFromHistory(e: Key, ep: EdgePlacement, sp: SinglePlacement)
      requires Valid() && LastWord(history, PutEp(e, ep))
      ensures e in slices
      ensures sp in slices[e] <==>
              || Extra(history, e, sp)
              || exists l, loc, s, st ::
                   && LastWord(history, PutLoc(l, loc)) && LastWord(history, PutSt(s, st))
                   && TwoHops(ep, l, loc, s, st, sp)
    {
      hide LastWord, Extra, CalledFor, AfterEvents, EpsIndexed, LocsIndexedAfter, Tally, TwoHops;
      LastWordCounts(history);
      assert e in catalog.eps && catalog.eps[e] == ep;
      SliceRightIff(e);
      CalledFromHistory(history, ep, sp);
    }

    /** A Location was added or updated, after `past`. */
    method ReconcileOnLocation(k: Key, ghost past: seq<Event>)
      requires k in catalog.locs && catalog == WithLoc(AfterEvents(EMPTY, past), k, catalog.locs[k])
      requires IndexedFor(AfterEvents(EMPTY, past), past) && Tallied(AfterEvents(EMPTY, past), past, slices)
      modifies `epsBySelectedLoc, `locsBySelectedSt, `slices
      ensures IndexedFor(catalog, past + [PutLoc(k, catalog.locs[k])])
      ensures Tallied(catalog, past + [PutLoc(k, catalog.locs[k])], slices)
    {
      hide EpsIndexed, LocsIndexedAfter, Tally, Extras, LocSelects, EpSelects, SinglesOfLoc, Cleaned, Elements,
           Distinct, AfterEvents;
      ghost var was := AfterEvents(EMPTY, past);
      var loc := catalog.locs[k];
      var selected := Bucket(epsBySelectedLoc, k);
      var stsFiltered := FilterStsByLoc(catalog.sts, k, loc);
      var epsFiltered := FilterEpsByLoc(catalog.eps, loc);
      var selecting := set e | e in epsFiltered;
      EpsIndexAfterLoc(was, epsBySelectedLoc, k, loc, selecting);
      SelectedBefore(was, epsBySelectedLoc, k);
      epsBySelectedLoc := epsBySelectedLoc[k := selecting];
      ghost var locIndex := locsBySelectedSt;
      var stsSelecting := set s | s in stsFiltered;
      locsBySelectedSt := Reindex(locsBySelectedSt, k, stsSelecting);
      LocsIndexAfterLoc(was, locIndex, past, k, loc, stsSelecting, locsBySelectedSt);
      var singles := MakeSinglesForLoc(catalog, k, loc, stsFiltered);
      assert SinglesOfLoc(was, k, loc, singles) by {
        SameSingles(catalog, was, k, loc, singles);
      }
      ghost var before := slices;
      EditForLoc(k, loc, selected, selecting, singles, past);
      forall e | e in catalog.eps
        ensures e in slices && Tally(catalog, catalog.eps[e], slices[e], Extras(past + [PutLoc(k, loc)], e))
      {
        if e !in selected + selecting {
          ExtrasAfterLoc(past, k, loc, e);
          LocLeavesTally(was, was.eps[e], k, loc, before[e], Extras(past, e));
        }
      }
    }

    /** Cleans and extends the slices of the EdgePlacements that did or do select the Location. */
    method EditForLoc(k: Key, loc: Location, selected: set<Key>, selecting: set<Key>, singles: seq<SinglePlacement>,
                      ghost past: seq<Event>)
      requires catalog == WithLoc(AfterEvents(EMPTY, past), k, loc)
      requires SinglesOfLoc(AfterEvents(EMPTY, past), k, loc, singles)
      requires Tallied(AfterEvents(EMPTY, past), past, slices)
      requires var was := AfterEvents(EMPTY, past);
               && (forall e :: e in selected <==> k in was.locs && e in was.eps && EpSelects(was.eps[e], was.locs[k]))
               && (forall e :: e in selecting <==> e in was.eps && EpSelects(was.eps[e], loc))
      modifies `slices
      ensures Edited(catalog, past + [PutLoc(k, loc)], old(slices), slices, selected + selecting)
    {
      hide Tally, Extras, EpSelects, SinglesOfLoc, Cleaned, AfterEvents;
      ghost var was, events := AfterEvents(EMPTY, past), past + [PutLoc(k, loc)];
      var olds := VisitOrder(selected);
      for i := 0 to |olds|
        invariant Edited(catalog, events, old(slices), slices, Elements(olds[..i]))
      {
        PrefixElements(olds, i);
        var e := olds[i];
        assert e in Elements(olds);
        var kept := CleanByLoc(slices[e], k);
        var next := if e !in selecting then kept else kept + singles;
        NextForLoc(was, past, k, loc, e, slices[e], kept, singles);
        EditedOne(catalog, events, old(slices), slices, Elements(olds[..i]), e, next);
        slices := slices[e := next];
      }
      assert olds[..|olds|] == olds;
      var news := VisitOrder(selecting);
      for i := 0 to |news|
        invariant Edited(catalog, events, old(slices), slices, selected + Elements(news[..i]))
      {
        PrefixElements(news, i);
        var e := news[i];
        assert e in Elements(news);
        if e !in selected {
          var kept := CleanByLoc(slices[e], k);
          NextForLoc(was, past, k, loc, e, slices[e], kept, singles);
          EditedOne(catalog, events, old(slices), slices, selected + Elements(news[..i]), e, kept + singles);
          slices := slices[e := kept + singles];
        }
        assert selected + Elements(news[..i]) + {e} == selected + Elements(news[..i + 1]);
      }
      assert news[..|news|] == news;
    }

    /**
     A SyncTarget was added or updated, after `past`. A match with a Location of another space gets into the
     index, and makes extra pairs in the slices of the EdgePlacements that select the Location.
     */
    method ReconcileOnSyncTarget(k: Key, ghost past: seq<Event>)
      requires k in catalog.sts && catalog == WithSt(AfterEvents(EMPTY, past), k, catalog.sts[k])
      requires IndexedFor(AfterEvents(EMPTY, past), past) && Tallied(AfterEvents(EMPTY, past), past, slices)
      modifies `locsBySelectedSt, `slices
      ensures IndexedFor(catalog, past + [PutSt(k, catalog.sts[k])])
      ensures Tallied(catalog, past + [PutSt(k, catalog.sts[k])], slices)
    {
      hide EpsIndexed, LocsIndexedAfter, Tally, Extras, LocSelects, EpSelects, InIndex, Path, AfterEvents, Across;
      ghost var was := AfterEvents(EMPTY, past);
      var st := catalog.sts[k];
      var used := FindEpsUsedSt(k);
      var matching := FilterLocsBySt(catalog.locs, st);
      var using := Union(epsBySelectedLoc, matching);
      EpsIndexAfterSt(was, epsBySelectedLoc, k, st);
      forall e
        ensures e in used + using <==> e in was.eps && ReachedBy(was, past, was.eps[e], k, st)
        ensures e in using <==> e in was.eps && exists l ::
                  l in was.locs && EpSelects(was.eps[e], was.locs[l]) && was.locs[l].instanceSelector(st.labels)
      {
        UsersReach(was, epsBySelectedLoc, locsBySelectedSt, past, k, e);
        MatchesReach(was, epsBySelectedLoc, st, matching, e);
      }
      var locsSelecting := set l | l in matching;
      LocsIndexAfterSt(was, locsBySelectedSt, past, k, st, locsSelecting);
      locsBySelectedSt := locsBySelectedSt[k := locsSelecting];
      ghost var before := slices;
      EditForSt(k, st, used, using, matching, past);
      forall e | e in catalog.eps
        ensures e in slices && Tally(catalog, catalog.eps[e], slices[e], Extras(past + [PutSt(k, st)], e))
      {
        if e !in used + using {
          ExtrasAfterSt(past, k, st, e);
          NotReached(was, past, was.eps[e], k, st);
          StLeavesTally(was, was.eps[e], k, st, before[e], Extras(past, e));
        }
      }
    }

    method FindEpsUsedSt(k: Key) returns (eps: set<Key>)
      ensures forall e :: e in eps <==> exists l :: l in Bucket(locsBySelectedSt, k) && Holds(epsBySelectedLoc, l, e)
    {
      var locs := VisitOrder(Bucket(locsBySelectedSt, k));
      assert forall l :: l in locs <==> l in Elements(locs);
      eps := Union(epsBySelectedLoc, locs);
    }

    /** Cleans and extends the slices of the EdgePlacements that did or do use the SyncTarget. */
    method EditForSt(k: Key, st: SyncTarget, used: set<Key>, using: set<Key>, matching: seq<Key>,
                     ghost past: seq<Event>)
      requires catalog == WithSt(AfterEvents(EMPTY, past), k, st) && Tallied(AfterEvents(EMPTY, past), past, slices)
      requires Distinct(matching)
      requires forall l :: l in matching <==> l in catalog.locs && catalog.locs[l].instanceSelector(st.labels)
      requires var was := AfterEvents(EMPTY, past);
               && (forall e :: e in used + using <==> e in was.eps && ReachedBy(was, past, was.eps[e], k, st))
               && (forall e :: e in using <==> e in was.eps && exists l ::
                     l in was.locs && EpSelects(was.eps[e], was.locs[l]) && was.locs[l].instanceSelector(st.labels))
      modifies `slices
      ensures Edited(catalog, past + [PutSt(k, st)], old(slices), slices, used + using)
    {
      hide Tally, Extras, EpSelects, ReachedBy, AfterEvents, Distinct;
      ghost var events := past + [PutSt(k, st)];
      var olds := VisitOrder(used);
      for i := 0 to |olds|
        invariant Edited(catalog, events, old(slices), slices, Elements(olds[..i]))
      {
        PrefixElements(olds, i);
        var e := olds[i];
        assert e in Elements(olds) && e in used + using;
        var next := NextSlice(e, k, st, e in using, matching, past);
        EditedOne(catalog, events, old(slices), slices, Elements(olds[..i]), e, next);
        slices := slices[e := next];
      }
      assert olds[..|olds|] == olds;
      var news := VisitOrder(using);
      for i := 0 to |news|
        invariant Edited(catalog, events, old(slices), slices, used + Elements(news[..i]))
      {
        PrefixElements(news, i);
        var e := news[i];
        assert e in Elements(news) && e in used + using;
        assert used + Elements(news[..i]) + {e} == used + Elements(news[..i + 1]);
        if e !in used {
          var next := NextSlice(e, k, st, true, matching, past);
          EditedOne(catalog, events, old(slices), slices, used + Elements(news[..i]), e, next);
          slices := slices[e := next];
        }
      }
      assert news[..|news|] == news;
    }

    /** The slice of one EdgePlacement, cleaned of the SyncTarget and extended if it is in use. */
    method NextSlice(e: Key, k: Key, st: SyncTarget, inUse: bool, matching: seq<Key>,
                     ghost past: seq<Event>) returns (next: seq<SinglePlacement>)
      requires catalog == WithSt(AfterEvents(EMPTY, past), k, st) && e in catalog.eps && e in slices
      requires Tally(AfterEvents(EMPTY, past), catalog.eps[e], slices[e], Extras(past, e))
      requires Distinct(matching)
      requires forall l :: l in matching <==> l in catalog.locs && catalog.locs[l].instanceSelector(st.labels)
      requires ReachedBy(AfterEvents(EMPTY, past), past, catalog.eps[e], k, st)
      requires inUse <==> exists l ::
                 && l in catalog.locs && EpSelects(catalog.eps[e], catalog.locs[l])
                 && catalog.locs[l].instanceSelector(st.labels)
      ensures Tally(catalog, catalog.eps[e], next, Extras(past + [PutSt(k, st)], e))
    {
      hide Tally, Extras, EpSelects, ReachedBy, AfterEvents, Distinct, Across, Cleaned, AtSt;
      ghost var was := AfterEvents(EMPTY, past);
      ExtrasAfterSt(past, k, st, e);
      next := CleanBySt(slices[e], k);
      ghost var kept := next;
      var locs, singles: seq<SinglePlacement> := [], [];
      if inUse {
        locs := FilterLocsByEp(catalog.locs, matching, catalog.eps[e]);
        singles := MakeSinglesForSt(locs, k, st);
        next := next + singles;
      } else {
        assert next == next + singles;
        NoneDistinct();
      }
      assert MadeFrom(was, was.eps[e], locs, k, st, singles);
      StChangesTally(was, was.eps[e], k, st, slices[e], kept, locs, singles, Extras(past, e));
    }

    lemma NoneDistinct()
      ensures Distinct<Key>([])
    {
    }

    /**
     An EdgePlacement was added, updated or deleted, after `past`. Its slice is made afresh, so it is right
     whatever was there before.
     */
    method ReconcileOnEdgePlacement(k: Key, ghost past: seq<Event>, ghost event: Event)
      requires IndexedFor(AfterEvents(EMPTY, past), past) && Tallied(AfterEvents(EMPTY, past), past, slices)
      requires (event.PutEp? || event.DropEp?) && event.k == k && catalog == AfterEvent(AfterEvents(EMPTY, past), event)
      modifies `epsBySelectedLoc, `slices
      ensures IndexedFor(catalog, past + [event]) && Tallied(catalog, past + [event], slices)
      ensures k in catalog.eps ==> SliceIs(catalog, catalog.eps[k], slices[k])
    {
      hide EpsIndexed, LocsIndexedAfter, SliceIs, Tally, Extras, LocSelects, EpSelects, Distinct, AfterEvents;
      ghost var was := AfterEvents(EMPTY, past);
      LocsIndexAfterEp(was, catalog, locsBySelectedSt, past, event);
      OtherEps(was, catalog, past, event, slices);
      if k !in catalog.eps {
        IndexEdgePlacement(k, {}, was);
        return;
      }
      var ep := catalog.eps[k];
      var all := VisitOrder(catalog.locs.Keys);
      assert forall l :: l in all <==> l in Elements(all);
      var selected := FilterLocsByEp(catalog.locs, all, ep);
      var singles := SinglesForEp(ep, selected);
      IndexEdgePlacement(k, (set l | l in selected), was);
      slices := slices[k := singles];
      RightIsTally(catalog, ep, singles);
      ExtrasAfterEp(past, event, k);
    }

    /** The EdgePlacement is taken into just the rows of the Locations that it selects, or out of all rows. */
    method IndexEdgePlacement(k: Key, rows: set<Key>, ghost was: Catalog)
      requires EpsIndexed(was, epsBySelectedLoc) && catalog.locs == was.locs
      requires forall e | e != k ::
                 (e in catalog.eps <==> e in was.eps) && (e in catalog.eps ==> catalog.eps[e] == was.eps[e])
      requires forall l :: l in rows <==>
                 k in catalog.eps && l in catalog.locs && EpSelects(catalog.eps[k], catalog.locs[l])
      modifies `epsBySelectedLoc
      ensures EpsIndexed(catalog, epsBySelectedLoc)
    {
      hide EpsIndexed, EpSelects;
      ghost var epIndex := epsBySelectedLoc;
      if k !in catalog.eps {
        epsBySelectedLoc := DropFromRows(epsBySelectedLoc, k);
      } else {
        epsBySelectedLoc := Reindex(epsBySelectedLoc, k, rows);
      }
      EpsIndexAfterEp(was, catalog, k, epIndex, rows, epsBySelectedLoc);
    }

    method SinglesForEp(ep: EdgePlacement, selected: seq<Key>) returns (singles: seq<SinglePlacement>)
      requires Distinct(selected) && forall l :: l in selected <==> l in catalog.locs && EpSelects(ep, catalog.locs[l])
      ensures SliceIs(catalog, ep, singles)
    {
      hide SliceIs, LocSelects, EpSelects, SinglesOfLoc;
      singles := [];
      NoLocs(catalog, ep);
      for i := 0 to |selected|
        invariant SliceIs(Among(catalog, selected[..i]), ep, singles)
      {
        var l := selected[i];
        var sts := FilterStsByLoc(catalog.sts, l, catalog.locs[l]);
        var more := MakeSinglesForLoc(catalog, l, catalog.locs[l], sts);
        AmongOneMore(catalog, ep, selected, i, singles, more);
        singles := singles + more;
      }
      assert selected[..|selected|] == selected;
      AmongSelected(catalog, ep, selected, singles);
    }

    // ----- Runs -----

    /** The informers pick up one change, and then it is reconciled. */
    method Receive(e: Event)
      requires Valid()
      modifies this
      ensures Valid() && history == old(history) + [e] && catalog == AfterEvent(old(catalog), e)
      ensures e.PutEp? ==> SliceIs(catalog, e.ep, slices[e.k])
    {
      hide EpsIndexed, LocsIndexedAfter, Tallied, SliceIs;
      ghost var past := history;
      history := history + [e];
      assert history[..|past|] == past;
      match e {
        case PutEp(k, ep) =>
          catalog := catalog.(eps := catalog.eps[k := ep]);
          ReconcileOnEdgePlacement(k, past, e);
        case DropEp(k) =>
          catalog := catalog.(eps := catalog.eps - {k});
          ReconcileOnEdgePlacement(k, past, e);
        case PutLoc(k, loc) =>
          catalog := catalog.(locs := catalog.locs[k := loc]);
          ReconcileOnLocation(k, past);
        case PutSt(k, st) =>
          catalog := catalog.(sts := catalog.sts[k := st]);
          ReconcileOnSyncTarget(k, past);
      }
    }

    /**
     One change. Whatever happened before, the slice of an EdgePlacement that is put becomes right, and a right
     slice stays right exactly when the change does not cross spaces for its EdgePlacement.
     */
    method Handle(e: Event)
      requires Valid()
      modifies this
      ensures Valid() && history == old(history) + [e] && catalog == AfterEvent(old(catalog), e)
      ensures e.PutEp? ==> SliceIs(catalog, e.ep, slices[e.k])
      ensures forall k | k in catalog.eps && !(e.PutEp? && e.k == k) ::
                old(SliceIs(catalog, catalog.eps[k], slices[k])) ==>
                  (SliceIs(catalog, catalog.eps[k], slices[k]) <==> !CrossesFor(old(catalog), e, k))
      ensures old(Right()) ==> (Right() <==> !Crosses(old(catalog), e))
    {
      hide EpsIndexed, LocsIndexed, LocsIndexedAfter, Tallied, SliceIs, Crosses, CrossesFor;
      ghost var was, past, before, locIndex := catalog, history, slices, locsBySelectedSt;
      Receive(e);
      forall k | k in catalog.eps && !(e.PutEp? && e.k == k)
        ensures k in was.eps && k in before && k in slices
        ensures SliceIs(was, was.eps[k], before[k]) ==>
                  (SliceIs(catalog, catalog.eps[k], slices[k]) <==> !CrossesFor(was, e, k))
      {
        SliceFollows(was, past, before, e, catalog, slices, k);
      }
      if old(Right()) {
        LocsIndexFollows(was, locIndex, past, e, locsBySelectedSt);
        SlicesFollow(was, past, before, e, catalog, slices);
      }
    }

    /** Over any run, the indices and the slices are what the history says. */
    method Run(events: seq<Event>)
      requires Valid()
      modifies this
      ensures Valid() && history == old(history) + events
      ensures forall k | k in catalog.eps ::
                SliceIs(catalog, catalog.eps[k], slices[k]) <==> forall sp :: !Extra(history, k, sp)
      ensures old(Right()) && NeverCrosses(old(catalog), events) ==> Right()
    {
      hide Valid, Right, AfterEvent, Crosses, SliceIs, Extra;
      for i := 0 to |events|
        invariant Valid() && history == old(history) + events[..i]
        invariant old(Right()) && NeverCrosses(old(catalog), events) ==> Right() && NeverCrosses(catalog, events[i..])
      {
        assert events[..i + 1] == events[..i] + [events[i]];
        assert events[i..][1..] == events[i + 1..];
        Handle(events[i]);
      }
      assert events[..|events|] == events;
      forall k | k in catalog.eps { SliceRightIff(k); }
    }
  }

  /** One slice, after one change. */
  lemma SliceFollows(was: Catalog, past: seq<Event>, before: map<Key, seq<SinglePlacement>>, e: Event, c: Catalog,
                     now: map<Key, seq<SinglePlacement>>, k: Key)
    requires was == AfterEvents(EMPTY, past) && c == AfterEvent(was, e)
    requires Tallied(was, past, before) && Tallied(c, past + [e], now)
    requires k in c.eps && !(e.PutEp? && e.k == k)
    ensures k in was.eps && was.eps[k] == c.eps[k] && k in before && k in now
    ensures SliceIs(was, was.eps[k], before[k]) ==> (SliceIs(c, c.eps[k], now[k]) <==> !CrossesFor(was, e, k))
  {
    hide Tally, Extras, SliceIs, CrossesFor, AfterEvents;
    RightIff(was, was.eps[k], before[k], Extras(past, k));
    RightIff(c, c.eps[k], now[k], Extras(past + [e], k));
    if Extras(past, k) == iset{} {
      ExtrasFromNone(past, e, k);
    }
  }

  /** All slices, after one change, if they were all right before. */
  lemma SlicesFollow(was: Catalog, past: seq<Event>, before: map<Key, seq<SinglePlacement>>, e: Event, c: Catalog,
                     now: map<Key, seq<SinglePlacement>>)
    requires was == AfterEvents(EMPTY, past) && c == AfterEvent(was, e)
    requires Tallied(was, past, before) && Tallied(c, past + [e], now) && SlicesRight(was, before)
    ensures !Crosses(was, e) ==> SlicesRight(c, now)
  {
    hide Tally, Extras, SliceIs, CrossesFor, AfterEvents, Crosses;
    NoCrossing(was, e);
    forall k | k in c.eps
      ensures !Crosses(was, e) ==> k in now && SliceIs(c, c.eps[k], now[k])
    {
      if e.PutEp? && e.k == k {
        ExtrasAfterEp(past, e, k);
        RightIff(c, c.eps[k], now[k], Extras(past + [e], k));
      } else {
        SliceFollows(was, past, before, e, c, now, k);
      }
    }
  }

  /** The slice of an EdgePlacement that did or does select the Location. */
  lemma NextForLoc(was: Catalog, past: seq<Event>, k: Key, loc: Location, e: Key, slice: seq<SinglePlacement>,
                   kept: seq<SinglePlacement>, singles: seq<SinglePlacement>)
    requires was == AfterEvents(EMPTY, past) && e in was.eps && Tally(was, was.eps[e], slice, Extras(past, e))
    requires (k in was.locs && EpSelects(was.eps[e], was.locs[k])) || EpSelects(was.eps[e], loc)
    requires Cleaned(slice, kept, sp => AtLoc(sp, k)) && SinglesOfLoc(was, k, loc, singles)
    ensures Tally(WithLoc(was, k, loc), was.eps[e], if EpSelects(was.eps[e], loc) then kept + singles else kept,
                  Extras(past + [PutLoc(k, loc)], e))
  {
    hide Tally, Extras, EpSelects, AfterEvents, Cleaned, SinglesOfLoc, AtLoc, WithLoc;
    ExtrasAfterLoc(past, k, loc, e);
    LocChangesTally(was, was.eps[e], k, loc, slice, kept, singles, Extras(past, e));
  }

  ghost predicate NeverCrosses(c: Catalog, events: seq<Event>)
    decreases |events|
  {
    events == [] || (!Crosses(c, events[0]) && NeverCrosses(AfterEvent(c, events[0]), events[1..]))
  }

  /**
   Three events after which the slice of an EdgePlacement has a pair that is not called for: its Location
   is in one space and its SyncTarget in another.
   */
  method CrossesSpaces() returns (r: Resolver)
    ensures r.Valid() && !SlicesRight(r.catalog, r.slices)
  {
    hide Resolver.Valid, Resolver.Right, SliceIs, CrossMatchFor, Crosses;
    var l, loc := Key("one", "location"), Location(map[], (_: Labels) => true);
    var s, st := Key("other", "target"), SyncTarget(map[], "uid");
    var e, ep := Key("one", "placement"), EdgePlacement([(_: Labels) => true]);
    r := new Resolver();
    r.Handle(PutLoc(l, loc));
    r.Handle(PutEp(e, ep));
    OneCrossing(r.catalog, ep, l, s, st);
    r.Handle(PutSt(s, st));
  }

  lemma OneCrossing(c: Catalog, ep: EdgePlacement, l: Key, s: Key, st: SyncTarget)
    requires l in c.locs && l.space != s.space && c.locs[l].instanceSelector(st.labels)
    requires |ep.locationSelectors| == 1 && ep.locationSelectors[0](c.locs[l].labels)
    ensures CrossMatchFor(c, ep, s, st)
  {
    assert EpSelects(ep, c.locs[l]);
  }

  /** With one consumer space there is nothing to cross. */
  lemma {:induction false} OneSpaceNeverCrosses(c: Catalog, events: seq<Event>, space: string)
    requires forall l | l in c.locs :: l.space == space
    requires forall e | e in events :: e.k.space == space
    ensures NeverCrosses(c, events)
    decreases |events|
  {
    if events != [] {
      assert events[0] in events;
      OneSpaceNeverCrosses(AfterEvent(c, events[0]), events[1..], space);
    }
  }

  lemma EpsIndexAfterSt(c: Catalog, index: Index<Key, Key>, k: Key, st: SyncTarget)
    requires EpsIndexed(c, index)
    ensures EpsIndexed(WithSt(c, k, st), index)
  {
  }

  /** A change of one EdgePlacement does not concern the slices of the others. */
  lemma OtherEps(was: Catalog, c: Catalog, past: seq<Event>, event: Event, slices: map<Key, seq<SinglePlacement>>)
    requires (event.PutEp? || event.DropEp?) && c == AfterEvent(was, event) && Tallied(was, past, slices)
    ensures forall e | e in c.eps && e != event.k ::
              e in slices && Tally(c, c.eps[e], slices[e], Extras(past + [event], e))
  {
    hide Extras;
    forall e | e in c.eps && e != event.k
      ensures e in slices && Tally(c, c.eps[e], slices[e], Extras(past + [event], e))
    {
      ExtrasAfterEp(past, event, e);
      forall l, s
        ensures Path(c, c.eps[e], l, s) <==> Path(was, was.eps[e], l, s)
      {
      }
      assert forall sp :: CalledFor(c, c.eps[e], sp) <==> CalledFor(was, was.eps[e], sp);
    }
  }

  lemma EpsIndexAfterEp(was: Catalog, c: Catalog, k: Key, index: Index<Key, Key>, rows: set<Key>, next: Index<Key, Key>)
    requires EpsIndexed(was, index) && c.locs == was.locs
    requires forall e | e != k :: (e in c.eps <==> e in was.eps) && (e in c.eps ==> c.eps[e] == was.eps[e])
    requires forall l :: l in rows <==> k in c.eps && l in c.locs && EpSelects(c.eps[k], c.locs[l])
    requires forall r, y :: Holds(next, r, y) <==> if y == k then r in rows else Holds(index, r, y)
    ensures EpsIndexed(c, next)
  {
  }

  /** The catalog with no other Locations than these. */
  function Among(c: Catalog, ls: seq<Key>): Catalog {
    c.(locs := map l | l in ls && l in c.locs :: c.locs[l])
  }

  lemma NoLocs(c: Catalog, ep: EdgePlacement)
    ensures SliceIs(Among(c, []), ep, [])
  {
  }

  lemma AmongOneMore(c: Catalog, ep: EdgePlacement, ls: seq<Key>, i: nat, slice: seq<SinglePlacement>,
                     more: seq<SinglePlacement>)
    requires i < |ls| && Distinct(ls) && forall l | l in ls :: l in c.locs && EpSelects(ep, c.locs[l])
    requires SliceIs(Among(c, ls[..i]), ep, slice) && SinglesOfLoc(c, ls[i], c.locs[ls[i]], more)
    ensures SliceIs(Among(c, ls[..i + 1]), ep, slice + more)
  {
    hide SliceIs, SinglesOfLoc, EpSelects, Elements, Among, WithLoc, WithoutLoc;
    var l, c0 := ls[i], Among(c, ls[..i]);
    assert l in ls;
    AmongWith(c, ls, i);
    assert c.sts == c0.sts by {
      AmongHasSts(c, ls[..i]);
    }
    SameSingles(c, c0, l, c.locs[l], more);
    ExtendedByLoc(c0, ep, l, c.locs[l], slice, more);
  }

  lemma AmongHasSts(c: Catalog, ls: seq<Key>)
    ensures Among(c, ls).sts == c.sts
  {
  }

  lemma AmongWith(c: Catalog, ls: seq<Key>, i: nat)
    requires i < |ls| && Distinct(ls) && ls[i] in c.locs
    ensures WithoutLoc(Among(c, ls[..i]), ls[i]) == Among(c, ls[..i])
    ensures WithLoc(Among(c, ls[..i]), ls[i], c.locs[ls[i]]) == Among(c, ls[..i + 1])
  {
    var l, c0 := ls[i], Among(c, ls[..i]);
    assert ls[..i + 1] == ls[..i] + [l];
    assert forall h | 0 <= h < i :: ls[h] != l;
    SameMap(WithoutLoc(c0, l).locs, c0.locs);
    SameMap(WithLoc(c0, l, c.locs[l]).locs, Among(c, ls[..i + 1]).locs);
  }

  lemma AmongSelected(c: Catalog, ep: EdgePlacement, ls: seq<Key>, slice: seq<SinglePlacement>)
    requires forall l :: l in ls <==> l in c.locs && EpSelects(ep, c.locs[l])
    requires SliceIs(Among(c, ls), ep, slice)
    ensures SliceIs(c, ep, slice)
  {
    forall l, s
      ensures Path(c, ep, l, s) <==> Path(Among(c, ls), ep, l, s)
    {
    }
  }

  lemma SelectedBefore(c: Catalog, index: Index<Key, Key>, k: Key)
    requires EpsIndexed(c, index)
    ensures forall e :: e in Bucket(index, k) <==> k in c.locs && e in c.eps && EpSelects(c.eps[e], c.locs[k])
  {
    assert forall e :: e in Bucket(index, k) <==> Holds(index, k, e);
  }

  lemma SameSingles(c: Catalog, c': Catalog, k: Key, loc: Location, singles: seq<SinglePlacement>)
    requires SinglesOfLoc(c, k, loc, singles) && c.sts == c'.sts
    ensures SinglesOfLoc(c', k, loc, singles)
  {
  }
}
