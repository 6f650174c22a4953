/** Handles on different zones do not interfere: any interleaving of their operations ends where running
    each handle's operations in turn ends. */
module ZoneTurns {
  import opened ZonedTypes
  import opened DeviceModel
  import opened HandleModel
  import opened ZoneIsolation
  import opened ZoneSystem

  // ---------- two operations ----------

  lemma {:induction false} SameConventionalEnd(a: seq<Zone>, b: seq<Zone>, i: nat)
    requires SameLayout(a, b) && i < |a|
    ensures ConventionalEnd(a, i) == ConventionalEnd(b, i)
    decreases |a| - i
  {
    assert SameShape(a[i], b[i]);
    if i + 1 < |a| {
      assert SameShape(a[i + 1], b[i + 1]);
      SameConventionalEnd(a, b, i + 1);
    }
  }

  /** Whether an event is possible is decided by the handle's own zone and the layout. */
  lemma EnabledLocal(s: DeviceState, t: DeviceState, h: HandleState, e: HandleEvent)
    requires ValidPair(s, h) && ValidPair(t, h) && SameLayout(t.zones, s.zones)
    requires t.zones[h.index] == s.zones[h.index]
    ensures Enabled(t, h, e) <==> Enabled(s, h, e)
  {
    if e.Wrote? && h.writePointer < h.CapacityEnd() {
      assert ValidAt(s.zones, h.index);
      IndexUnique(s.zones, h.writePointer, h.index);
      IndexUnique(t.zones, h.writePointer, h.index);
      SameIndex(t.zones, s.zones, h.writePointer);
      SameConventionalEnd(t.zones, s.zones, h.index);
    }
  }

  lemma ApartInBytes(zones: seq<Zone>, i: nat, j: nat)
    requires Contiguous(zones) && i < |zones| && j < |zones| && i != j
    ensures zones[i].End() <= zones[j].start || zones[j].End() <= zones[i].start
  {
    Ordered(zones);
  }

  /** Events of handles on different zones commute. */
  lemma EventsCommute(s: DeviceState, g: HandleState, e: HandleEvent, h: HandleState, f: HandleEvent,
                      t: DeviceState, u: DeviceState)
    requires ValidPair(s, g) && ValidPair(s, h) && g.index != h.index
    requires Enabled(s, g, e) && Contained(g, e) && Contained(h, f)
    requires t == DevAfter(s, g, e) && ValidState(t) && Enabled(t, h, f)
    requires u == DevAfter(s, h, f)
    ensures Enabled(s, h, f) && ValidState(u) && Enabled(u, g, e)
    ensures DevAfter(t, h, f) == DevAfter(u, g, e)
  {
    EventValid(s, g, e);
    EventTouchesOwnZone(s, g, e, h.index);
    ValidPairKept(s, t, h);
    EnabledLocal(s, t, h, f);
    EventValid(s, h, f);
    EventTouchesOwnZone(s, h, f, g.index);
    ValidPairKept(s, u, g);
    EnabledLocal(s, u, g, e);
    UpdatesAgree(s, g, e, h, f, t, u);
  }

  lemma UpdatesAgree(s: DeviceState, g: HandleState, e: HandleEvent, h: HandleState, f: HandleEvent,
                     t: DeviceState, u: DeviceState)
    requires ValidPair(s, g) && ValidPair(s, h) && g.index != h.index
    requires Enabled(s, g, e) && Contained(g, e) && Enabled(s, h, f) && Contained(h, f)
    requires t == DevAfter(s, g, e) && ValidPair(t, h) && Enabled(t, h, f)
    requires u == DevAfter(s, h, f) && ValidPair(u, g) && Enabled(u, g, e)
    ensures DevAfter(t, h, f) == DevAfter(u, g, e)
  {
    var y, a, m := s.zones[g.index], WrittenBytes(s.zones[g.index], e, s.pattern), WrittenFrom(g, e);
    var z, b, n := s.zones[h.index], WrittenBytes(s.zones[h.index], f, s.pattern), WrittenFrom(h, f);
    EventIsUpdate(s, g, e, m, a);
    EventIsUpdate(s, h, f, n, b);
    EventIsUpdate(t, h, f, n, b);
    EventIsUpdate(u, g, e, m, a);
    ApartInBytes(s.zones, g.index, h.index);
    UpdateCommute(s, g.index, ZoneAfter(y, e), m, a, h.index, ZoneAfter(z, f), n, b);
  }

  // ---------- runs of operations ----------

  /** Step `e` is a contained operation through a live handle, possible in state `s`. */
  ghost predicate Proper(s: Sys, e: Step) {
    e.Use? && Can(s, e) && Contained(s.handles[e.handle], e.e)
  }

  ghost predicate ProperAll(s: Sys, es: seq<Step>) {
    es == [] || (ProperAll(s, es[..|es| - 1]) && Proper(AfterAll(s, es[..|es| - 1]), es[|es| - 1]))
  }

  lemma Snoc(s: Sys, es: seq<Step>, e: Step)
    ensures AfterAll(s, es + [e]) == After(AfterAll(s, es), e)
    ensures ProperAll(s, es + [e]) <==> ProperAll(s, es) && Proper(AfterAll(s, es), e)
  {
    assert (es + [e])[..|es + [e]| - 1] == es;
  }

  lemma {:induction false} Concat(s: Sys, a: seq<Step>, b: seq<Step>)
    ensures AfterAll(s, a + b) == AfterAll(AfterAll(s, a), b)
    ensures ProperAll(s, a + b) <==> ProperAll(s, a) && ProperAll(AfterAll(s, a), b)
    decreases |b|
  {
    hide Proper, After, Can, Inv;
    if b == [] {
      assert a + b == a;
    } else {
      var before, e := b[..|b| - 1], b[|b| - 1];
      Concat(s, a, before);
      assert a + b == (a + before) + [e];
      Snoc(s, a + before, e);
    }
  }

  lemma {:induction false} ProperKeepsInv(s: Sys, es: seq<Step>)
    requires Inv(s) && ProperAll(s, es)
    ensures Inv(AfterAll(s, es))
  {
    if es == [] {
    } else {
      ProperKeepsInv(s, es[..|es| - 1]);
      StepKeepsInv(AfterAll(s, es[..|es| - 1]), es[|es| - 1]);
    }
  }

  /** Steps of different handles commute. */
  lemma StepsCommute(s: Sys, e: Step, f: Step, t: Sys, u: Sys)
    requires Inv(s) && Proper(s, e) && t == After(s, e) && Proper(t, f) && e.handle != f.handle
    requires u == After(s, f)
    ensures Proper(s, f) && Proper(u, e) && After(t, f) == After(u, e)
  {
    hide DevAfter, Enabled, Contained;
    var g, h := s.handles[e.handle], s.handles[f.handle];
    assert HandleValid(s, e.handle) && HandleValid(s, f.handle);
    assert Owns(s, ByHandle(e.handle), g.index) && Owns(s, ByHandle(f.handle), h.index);
    EventsCommute(s.dev, g, e.e, h, f.e, t.dev, DevAfter(s.dev, h, f.e));
    assert After(t, f).handles == After(u, e).handles;
  }

  /** A step can be moved before all steps of other handles. */
  lemma {:induction false} MoveBack(s: Sys, es: seq<Step>, e: Step)
    requires Inv(s) && ProperAll(s, es + [e])
    requires forall k :: 0 <= k < |es| ==> es[k].Use? && e.Use? && es[k].handle != e.handle
    ensures ProperAll(s, [e] + es) && AfterAll(s, [e] + es) == AfterAll(s, es + [e])
    decreases |es|
  {
    hide After, Can, Inv;
    if es == [] {
      assert [e] + es == es + [e];
    } else {
      var before, w := es[..|es| - 1], es[|es| - 1];
      assert es == before + [w];
      Snoc(s, es, e);
      Snoc(s, before, w);
      var u := AfterAll(s, before);
      ProperKeepsInv(s, before);
      StepsCommute(u, w, e, After(u, w), After(u, e));
      Snoc(s, before, e);
      MoveBack(s, before, e);
      Snoc(s, [e] + before, w);
      assert ([e] + before) + [w] == [e] + es;
    }
  }

  /** The steps of handle `h`, in their order. */
  function Only(es: seq<Step>, h: nat): (r: seq<Step>)
    requires forall k :: 0 <= k < |es| ==> es[k].Use?
    ensures forall k :: 0 <= k < |r| ==> r[k].Use? && r[k].handle == h && r[k] in es
  {
    if es == [] then [] else
      Only(es[..|es| - 1], h) + if es[|es| - 1].handle == h then [es[|es| - 1]] else []
  }

  /** The steps of the other handles, in their order. */
  function Without(es: seq<Step>, h: nat): (r: seq<Step>)
    requires forall k :: 0 <= k < |es| ==> es[k].Use?
    ensures forall k :: 0 <= k < |r| ==> r[k].Use? && r[k].handle != h && r[k] in es
  {
    if es == [] then [] else
      Without(es[..|es| - 1], h) + if es[|es| - 1].handle != h then [es[|es| - 1]] else []
  }

  /** After steps `o`, step `e` can be moved before steps `w` of other handles. */
  lemma MoveIntoPlace(s: Sys, o: seq<Step>, w: seq<Step>, e: Step)
    requires Inv(s) && ProperAll(s, (o + w) + [e])
    requires forall k :: 0 <= k < |w| ==> w[k].Use? && e.Use? && w[k].handle != e.handle
    ensures ProperAll(s, (o + [e]) + w) && AfterAll(s, (o + [e]) + w) == AfterAll(s, (o + w) + [e])
  {
    hide After, Can, Inv;
    Concat(s, o, w + [e]);
    assert o + (w + [e]) == (o + w) + [e];
    ProperKeepsInv(s, o);
    MoveBack(AfterAll(s, o), w, e);
    Concat(s, o, [e] + w);
    assert o + ([e] + w) == (o + [e]) + w;
  }

  /** Running one handle's steps first, then all the others, ends where the interleaving ends. */
  lemma {:induction false} OneFirst(s: Sys, es: seq<Step>, h: nat)
    requires Inv(s) && ProperAll(s, es) && forall k :: 0 <= k < |es| ==> es[k].Use?
    ensures ProperAll(s, Only(es, h) + Without(es, h))
    ensures AfterAll(s, Only(es, h) + Without(es, h)) == AfterAll(s, es)
  {
    hide After, Can, Inv;
    if es == [] {
    } else {
      var before, e := es[..|es| - 1], es[|es| - 1];
      OneFirst(s, before, h);
      var o, w := Only(before, h), Without(before, h);
      Snoc(s, o + w, e);
      if e.handle != h {
        assert Only(es, h) + Without(es, h) == (o + w) + [e];
      } else {
        MoveIntoPlace(s, o, w, e);
        assert Only(es, h) == o + [e] && Without(es, h) == w;
      }
    }
  }

  /** Each handle's steps in turn. */
  function InTurn(es: seq<Step>, hs: seq<nat>): (r: seq<Step>)
    requires forall k :: 0 <= k < |es| ==> es[k].Use?
    ensures forall k :: 0 <= k < |r| ==> r[k].Use? && r[k].handle in hs
  {
    if hs == [] then [] else Only(es, hs[0]) + InTurn(es, hs[1..])
  }

  lemma {:induction false} OnlyWithout(es: seq<Step>, g: nat, h: nat)
    requires g != h && forall k :: 0 <= k < |es| ==> es[k].Use?
    ensures Only(Without(es, g), h) == Only(es, h)
  {
    if es == [] {
    } else {
      var before, e := es[..|es| - 1], es[|es| - 1];
      OnlyWithout(before, g, h);
      var w := Without(before, g);
      if e.handle != g {
        assert (w + [e])[..|w + [e]| - 1] == w;
      } else {
        assert Without(es, g) == w;
      }
    }
  }

  lemma {:induction false} InTurnWithout(es: seq<Step>, g: nat, hs: seq<nat>)
    requires g !in hs && forall k :: 0 <= k < |es| ==> es[k].Use?
    ensures InTurn(Without(es, g), hs) == InTurn(es, hs)
  {
    if hs == [] {
    } else {
      OnlyWithout(es, g, hs[0]);
      InTurnWithout(es, g, hs[1..]);
    }
  }

  ghost predicate Distinct(hs: seq<nat>) {
    forall i, j :: 0 <= i < j < |hs| ==> hs[i] != hs[j]
  }

  lemma {:induction false} OnlyOfParts(a: seq<Step>, b: seq<Step>, h: nat)
    requires forall k :: 0 <= k < |a| ==> a[k].Use?
    requires forall k :: 0 <= k < |b| ==> b[k].Use?
    ensures Only(a + b, h) == Only(a, h) + Only(b, h)
    decreases |b|
  {
    if b == [] {
      assert a + b == a;
    } else {
      OnlyOfParts(a, b[..|b| - 1], h);
      assert (a + b)[..|a + b| - 1] == a + b[..|b| - 1];
    }
  }

  /** What `Only` leaves of steps that are all the handle's, and of steps that are not. */
  lemma {:induction false} OnlyOfOne(es: seq<Step>, h: nat)
    requires forall k :: 0 <= k < |es| ==> es[k].Use?
    ensures (forall k :: 0 <= k < |es| ==> es[k].handle == h) ==> Only(es, h) == es
    ensures (forall k :: 0 <= k < |es| ==> es[k].handle != h) ==> Only(es, h) == []
  {
    if es != [] {
      OnlyOfOne(es[..|es| - 1], h);
      assert es == es[..|es| - 1] + [es[|es| - 1]];
    }
  }

  lemma InTurnStep(es: seq<Step>, hs: seq<nat>, w: seq<Step>, rest: seq<nat>)
    requires Distinct(hs) && hs != [] && forall k :: 0 <= k < |es| ==> es[k].Use?
    requires w == Without(es, hs[0]) && rest == hs[1..]
    ensures InTurn(es, hs) == Only(es, hs[0]) + InTurn(w, rest) && Distinct(rest) && hs[0] !in rest
  {
    InTurnWithout(es, hs[0], rest);
  }

  /** Running the handles in turn runs the operations of each handle, none lost or added, in the order in which
      they came before. */
  lemma {:induction false} InTurnKeepsOrder(es: seq<Step>, hs: seq<nat>, h: nat)
    requires Distinct(hs) && forall k :: 0 <= k < |es| ==> es[k].Use?
    ensures Only(InTurn(es, hs), h) == if h in hs then Only(es, h) else []
    decreases |hs|
  {
    if hs != [] {
      var w, rest := Without(es, hs[0]), hs[1..];
      InTurnStep(es, hs, w, rest);
      InTurnKeepsOrder(w, rest, h);
      hide InTurn, Only, Without, Distinct;
      OnlyOfParts(Only(es, hs[0]), InTurn(w, rest), h);
      OnlyOfOne(Only(es, hs[0]), h);
      if h != hs[0] {
        OnlyWithout(es, hs[0], h);
      }
    }
  }

  lemma InTurnFirst(es: seq<Step>, g: nat, hs: seq<nat>, gs: seq<nat>)
    requires gs == [g] + hs && forall k :: 0 <= k < |es| ==> es[k].Use?
    ensures InTurn(es, gs) == Only(es, g) + InTurn(es, hs)
  {
    assert gs[1..] == hs;
  }

  lemma InTurnMore(es: seq<Step>, g: nat, tail: seq<nat>, gs: seq<nat>, hs: seq<nat>)
    requires forall k :: 0 <= k < |es| ==> es[k].Use?
    requires gs == [g] + tail && InTurn(es, tail + hs) == InTurn(es, tail) + InTurn(es, hs)
    ensures InTurn(es, gs + hs) == InTurn(es, gs) + InTurn(es, hs)
  {
    hide InTurn, Only;
    assert gs + hs == [g] + (tail + hs);
    InTurnFirst(es, g, tail, gs);
    InTurnFirst(es, g, tail + hs, gs + hs);
    Associative(Only(es, g), InTurn(es, tail), InTurn(es, hs));
  }

  lemma Associative(a: seq<Step>, b: seq<Step>, c: seq<Step>)
    ensures (a + b) + c == a + (b + c)
  {
  }

  /** And they are run in turn: all operations of the handles listed first come first. */
  lemma {:induction false} InTurnOfParts(es: seq<Step>, gs: seq<nat>, hs: seq<nat>)
    requires forall k :: 0 <= k < |es| ==> es[k].Use?
    ensures InTurn(es, gs + hs) == InTurn(es, gs) + InTurn(es, hs)
  {
    if gs == [] {
      assert gs + hs == hs;
    } else {
      InTurnOfParts(es, gs[1..], hs);
      hide InTurn, Only;
      InTurnMore(es, gs[0], gs[1..], gs, hs);
    }
  }

  /** Any interleaving of contained operations through live handles ends in the state that running
      each handle's operations in turn ends in, whatever the order of the handles. */
  lemma {:induction false} InterleavingIsInTurn(s: Sys, es: seq<Step>, hs: seq<nat>)
    requires Inv(s) && ProperAll(s, es) && forall k :: 0 <= k < |es| ==> es[k].Use?
    requires Distinct(hs) && forall k :: 0 <= k < |es| ==> es[k].handle in hs
    ensures ProperAll(s, InTurn(es, hs)) && AfterAll(s, InTurn(es, hs)) == AfterAll(s, es)
    decreases |hs|
  {
    hide After, Can, Inv;
    if hs == [] {
      assert es == [];
    } else {
      var h, o, w := hs[0], Only(es, hs[0]), Without(es, hs[0]);
      OneFirst(s, es, h);
      Concat(s, o, w);
      ProperKeepsInv(s, o);
      InterleavingIsInTurn(AfterAll(s, o), w, hs[1..]);
      InTurnWithout(es, h, hs[1..]);
      Concat(s, o, InTurn(es, hs[1..]));
    }
  }

  // ---------- in turn, in terms of what callers know ----------

  /** The step is an operation through a live handle; if it is a write, it may not cross. */
  ghost predicate Safe(s: Sys, e: Step) {
    e.Use? && (e.handle in s.handles && e.e.Wrote? ==> !MayCross(s.dev, s.handles[e.handle], e.e.buf))
  }

  ghost predicate SafeAll(s: Sys, es: seq<Step>) {
    es == [] || (SafeAll(s, es[..|es| - 1]) && Safe(AfterAll(s, es[..|es| - 1]), es[|es| - 1]))
  }

  lemma SafeIsProper(s: Sys, e: Step)
    requires Inv(s) && Can(s, e) && Safe(s, e)
    ensures Proper(s, e)
  {
    assert HandleValid(s, e.handle);
    if e.e.Wrote? {
      StaysInZone(s.dev, s.handles[e.handle], e.e.buf, e.e.n);
    }
  }

  lemma {:induction false} SafeRunIsProper(s: Sys, es: seq<Step>)
    requires Inv(s) && CanAll(s, es) && SafeAll(s, es)
    ensures ProperAll(s, es)
  {
    hide After, Can, Inv, Safe, Proper;
    if es == [] {
    } else {
      SafeRunIsProper(s, es[..|es| - 1]);
      ProperKeepsInv(s, es[..|es| - 1]);
      SafeIsProper(AfterAll(s, es[..|es| - 1]), es[|es| - 1]);
    }
  }

  ghost predicate OnlyUses(es: seq<Step>) {
    forall k :: 0 <= k < |es| ==> es[k].Use?
  }

  /** No live handle is on a conventional zone. */
  ghost predicate OnSequentialZones(s: Sys) {
    forall h: nat :: OnSequentialZone(s, h)
  }

  ghost predicate OnSequentialZone(s: Sys, h: nat) {
    h in s.handles ==> s.handles[h].index < |s.dev.zones| && !s.dev.zones[s.handles[h].index].zoneType.Conventional?
  }

  lemma UseStaysSequential(s: Sys, e: Step)
    requires Inv(s) && Can(s, e) && e.Use? && OnSequentialZones(s)
    ensures Safe(s, e) && OnSequentialZones(After(s, e))
  {
    assert HandleValid(s, e.handle) && OnSequentialZone(s, e.handle);
    EventValid(s.dev, s.handles[e.handle], e.e);
    var t := After(s, e);
    hide DevAfter, HandleAfter, Enabled, ValidState;
    forall h: nat
      ensures OnSequentialZone(t, h)
    {
      assert OnSequentialZone(s, h) && HandleValid(s, h);
      if h in s.handles {
        assert SameShape(t.dev.zones[s.handles[h].index], s.dev.zones[s.handles[h].index]);
      }
    }
  }

  lemma {:induction false} SequentialRunIsSafe(s: Sys, es: seq<Step>)
    requires Inv(s) && CanAll(s, es) && OnlyUses(es) && OnSequentialZones(s)
    ensures SafeAll(s, es) && OnSequentialZones(AfterAll(s, es))
  {
    hide After, Can, Inv, Safe, OnSequentialZones;
    if es == [] {
    } else {
      var before := es[..|es| - 1];
      SequentialRunIsSafe(s, before);
      SafeRunIsProper(s, before);
      ProperKeepsInv(s, before);
      UseStaysSequential(AfterAll(s, before), es[|es| - 1]);
    }
  }

  /** Any possible interleaving in which no write may cross ends where running each handle's operations
      in turn ends. */
  lemma SafeInterleavingIsInTurn(s: Sys, es: seq<Step>, hs: seq<nat>)
    requires Inv(s) && CanAll(s, es) && OnlyUses(es) && SafeAll(s, es)
    requires Distinct(hs) && forall k :: 0 <= k < |es| ==> es[k].handle in hs
    ensures CanAll(s, InTurn(es, hs)) && AfterAll(s, InTurn(es, hs)) == AfterAll(s, es)
  {
    hide After, Can, Inv;
    SafeRunIsProper(s, es);
    InterleavingIsInTurn(s, es, hs);
    ProperIsPossible(s, InTurn(es, hs));
  }

  lemma {:induction false} ProperIsPossible(s: Sys, es: seq<Step>)
    requires ProperAll(s, es)
    ensures CanAll(s, es)
  {
    hide After, Can;
    if es == [] {
    } else {
      ProperIsPossible(s, es[..|es| - 1]);
    }
  }

  /** Handles on sequential zones never interfere: every possible interleaving of their operations ends
      where running each handle's operations in turn ends, whatever the order of the handles. */
  lemma SequentialInterleavingIsInTurn(s: Sys, es: seq<Step>, hs: seq<nat>)
    requires Inv(s) && CanAll(s, es) && OnlyUses(es) && OnSequentialZones(s)
    requires Distinct(hs) && forall k :: 0 <= k < |es| ==> es[k].handle in hs
    ensures CanAll(s, InTurn(es, hs)) && AfterAll(s, InTurn(es, hs)) == AfterAll(s, es)
  {
    hide After, Can, Inv, OnSequentialZones;
    SequentialRunIsSafe(s, es);
    SafeInterleavingIsInTurn(s, es, hs);
  }

  // ---------- handles from `allocate` ----------

  /** No caller names a zone: handles come from `allocate`, and no index is released explicitly. */
  ghost predicate OnlyAllocate(es: seq<Step>) {
    forall k :: 0 <= k < |es| ==> !es[k].StartAllocateZone? && !es[k].Release?
  }

  ghost predicate IsRequired(s: Sys, i: nat) {
    i < |s.dev.zones| && s.dev.zones[i].zoneType.SequentialWriteRequired?
  }

  /** What the call has in hand is a sequential-write-required zone, and its snapshot has the zones' types. */
  ghost predicate RequiredCall(s: Sys, c: nat) {
    c in s.calls ==>
      match s.calls[c]
      case Scanning(seen) => |seen| <= |s.dev.zones| && forall j: nat :: SeenType(s, seen, j)
      case Chosen(i, _) => IsRequired(s, i)
      case Reserved(i) => IsRequired(s, i)
      case Read(i, _) => IsRequired(s, i)
      case _ => true
  }

  ghost predicate SeenType(s: Sys, seen: seq<Zone>, j: nat) {
    j < |seen| ==> j < |s.dev.zones| && seen[j].zoneType == s.dev.zones[j].zoneType
  }

  ghost predicate RequiredHandle(s: Sys, h: nat) {
    h in s.handles ==> IsRequired(s, s.handles[h].index)
  }

  ghost predicate AllRequired(s: Sys) {
    (forall c: nat :: RequiredCall(s, c)) && (forall h: nat :: RequiredHandle(s, h))
  }

  lemma TypesStay(s: Sys, e: Step)
    requires Inv(s) && Can(s, e)
    ensures SameLayout(After(s, e).dev.zones, s.dev.zones)
  {
    if e.Use? {
      assert HandleValid(s, e.handle);
      EventValid(s.dev, s.handles[e.handle], e.e);
    }
  }

  lemma RequiredStays(s: Sys, t: Sys, i: nat)
    requires SameLayout(t.dev.zones, s.dev.zones)
    ensures IsRequired(t, i) <==> IsRequired(s, i)
  {
    if i < |s.dev.zones| {
      assert SameShape(t.dev.zones[i], s.dev.zones[i]);
    }
  }

  lemma CallStaysRequired(s: Sys, t: Sys, c: nat)
    requires SameLayout(t.dev.zones, s.dev.zones) && RequiredCall(s, c)
    requires c in s.calls && c in t.calls && t.calls[c] == s.calls[c]
    ensures RequiredCall(t, c)
  {
    var call := s.calls[c];
    if call.Scanning? {
      forall j: nat
        ensures SeenType(t, call.seen, j)
      {
        assert SeenType(s, call.seen, j);
        if j < |call.seen| {
          assert SameShape(t.dev.zones[j], s.dev.zones[j]);
        }
      }
    } else if call.Chosen? || call.Reserved? || call.Read? {
      RequiredStays(s, t, call.index);
    }
  }

  lemma OwnCallRequired(s: Sys, e: Step, c: nat)
    requires Inv(s) && Can(s, e) && RequiredCall(s, c) && StepCall(e) == Some(c) && !e.StartAllocateZone?
    ensures RequiredCall(After(s, e), c)
  {
    var t := After(s, e);
    if e.ScanBatch? {
      forall j: nat
        ensures SeenType(t, t.calls[c].seen, j)
      {
        assert SeenType(s, s.calls[c].seen, j);
      }
    } else if e.Pick? {
      var free := FirstFree(s.calls[c].seen, s.inUse, 0);
      if free.Some? {
        assert SeenType(s, s.calls[c].seen, free.value);
      }
    }
  }

  lemma StepKeepsRequired(s: Sys, e: Step)
    requires Inv(s) && AllRequired(s) && Can(s, e) && !e.StartAllocateZone? && !e.Release?
    ensures AllRequired(After(s, e))
  {
    var t := After(s, e);
    TypesStay(s, e);
    forall c: nat
      ensures RequiredCall(t, c)
    {
      assert RequiredCall(s, c);
      if StepCall(e) == Some(c) {
        OwnCallRequired(s, e, c);
      } else if c in s.calls {
        CallStaysRequired(s, t, c);
      }
    }
    forall h: nat
      ensures RequiredHandle(t, h)
    {
      assert RequiredHandle(s, h);
      if h in s.handles {
        RequiredStays(s, t, s.handles[h].index);
      } else if e.Construct? && e.handle == h {
        assert RequiredCall(s, e.c);
      }
    }
  }

  lemma {:induction false} AllocatedRunIsRequired(s: Sys, es: seq<Step>)
    requires Init(s) && CanAll(s, es) && OnlyAllocate(es)
    ensures Inv(AfterAll(s, es)) && AllRequired(AfterAll(s, es))
  {
    hide After, Can, Inv, AllRequired;
    OwnershipInEveryRun(s, es);
    if es == [] {
      NothingRequiredYet(s);
    } else {
      AllocatedRunIsRequired(s, es[..|es| - 1]);
      StepKeepsRequired(AfterAll(s, es[..|es| - 1]), es[|es| - 1]);
    }
  }

  lemma NothingRequiredYet(s: Sys)
    requires Init(s)
    ensures AllRequired(s)
  {
  }

  lemma RequiredIsSequential(s: Sys)
    requires AllRequired(s)
    ensures OnSequentialZones(s)
  {
    forall h: nat
      ensures OnSequentialZone(s, h)
    {
      assert RequiredHandle(s, h);
    }
  }

  /** Handles that `allocate` issued, in any interleaving of any threads, are on sequential-write-required
      zones, and from there on every possible interleaving of their operations ends where running each
      handle's operations in turn ends. */
  lemma AllocatedInterleavingIsInTurn(s: Sys, issuing: seq<Step>, es: seq<Step>, hs: seq<nat>)
    requires Init(s) && CanAll(s, issuing) && OnlyAllocate(issuing)
    requires CanAll(AfterAll(s, issuing), es) && OnlyUses(es)
    requires Distinct(hs) && forall k :: 0 <= k < |es| ==> es[k].handle in hs
    ensures forall h: nat :: RequiredHandle(AfterAll(s, issuing), h)
    ensures CanAll(AfterAll(s, issuing), InTurn(es, hs))
    ensures AfterAll(AfterAll(s, issuing), InTurn(es, hs)) == AfterAll(AfterAll(s, issuing), es)
  {
    hide After, Can, Inv, OnSequentialZones, RequiredHandle, CanAll, AfterAll;
    AllocatedRunIsRequired(s, issuing);
    RequiredIsSequential(AfterAll(s, issuing));
    SequentialInterleavingIsInTurn(AfterAll(s, issuing), es, hs);
  }

  // ---------- where it fails ----------

  /** Device byte `k` after a write that covers it. */
  lemma WrittenByte(s: DeviceState, h: HandleState, buf: seq<byte>, n: nat, k: nat)
    requires ValidPair(s, h) && Enabled(s, h, Wrote(buf, n))
    requires SECTOR_SIZE * h.writePointer <= k < SECTOR_SIZE * h.writePointer + n
    ensures n <= |buf| && k < |s.data| == |DevAfter(s, h, Wrote(buf, n)).data|
    ensures DevAfter(s, h, Wrote(buf, n)).data[k] == buf[k - SECTOR_SIZE * h.writePointer]
  {
    WriteInside(s, h.writePointer, n);
  }

  /** Whenever a write of one handle may cross into the zone of another that stands at its start, there
      are an outcome of it and a write of the other for which the order of the two decides what the
      device holds. */
  lemma CrossingOrderMatters(s: DeviceState, g: HandleState, buf: seq<byte>, h: HandleState) returns (n: nat,
                             other: seq<byte>)
    requires ValidPair(s, g) && ValidPair(s, h) && h.index == g.index + 1
    requires MayCross(s, g, buf) && TakesWrites(s, h) && h.writePointer == h.start
    ensures Enabled(s, g, Wrote(buf, n)) && Enabled(s, h, Wrote(other, 1))
    ensures var t, u := DevAfter(s, g, Wrote(buf, n)), DevAfter(s, h, Wrote(other, 1));
            && ValidState(t) && Enabled(t, h, Wrote(other, 1))
            && ValidState(u) && Enabled(u, g, Wrote(buf, n))
            && DevAfter(t, h, Wrote(other, 1)) != DevAfter(u, g, Wrote(buf, n))
  {
    n := CrossingCount(g, buf);
    CrossingIsEnabled(s, g, buf);
    var k := SECTOR_SIZE * h.start;
    assert ValidAt(s.zones, g.index) && Adjacent(s.zones, g.index);
    WrittenByte(s, g, buf, n, k);
    var b := buf[k - SECTOR_SIZE * g.writePointer];
    other := [if b == 0 then 1 else 0];
    OneByteEnabled(s, h, other);
    BothOrders(s, g, buf, n, h, other, DevAfter(s, g, Wrote(buf, n)), DevAfter(s, h, Wrote(other, 1)));
  }

  lemma BothOrders(s: DeviceState, g: HandleState, buf: seq<byte>, n: nat, h: HandleState, other: seq<byte>,
                   t: DeviceState, u: DeviceState)
    requires ValidPair(s, g) && ValidPair(s, h) && g.index != h.index
    requires Enabled(s, g, Wrote(buf, n)) && t == DevAfter(s, g, Wrote(buf, n))
    requires Enabled(s, h, Wrote(other, 1)) && u == DevAfter(s, h, Wrote(other, 1))
    requires g.writePointer <= h.writePointer && n <= |buf|
    requires SECTOR_SIZE * h.writePointer < SECTOR_SIZE * g.writePointer + n
    requires |other| == 1 && buf[SECTOR_SIZE * h.writePointer - SECTOR_SIZE * g.writePointer] != other[0]
    ensures ValidState(t) && Enabled(t, h, Wrote(other, 1))
    ensures ValidState(u) && Enabled(u, g, Wrote(buf, n))
    ensures DevAfter(t, h, Wrote(other, 1)) != DevAfter(u, g, Wrote(buf, n))
  {
    EventValid(s, g, Wrote(buf, n));
    EventValid(s, h, Wrote(other, 1));
    EventTouchesOwnZone(s, g, Wrote(buf, n), h.index);
    EventTouchesOwnZone(s, h, Wrote(other, 1), g.index);
    ValidPairKept(s, t, h);
    ValidPairKept(s, u, g);
    EnabledLocal(s, t, h, Wrote(other, 1));
    EnabledLocal(s, u, g, Wrote(buf, n));
    hide DevAfter, Enabled, ValidState;
    var k := SECTOR_SIZE * h.writePointer;
    WrittenByte(t, h, other, 1, k);
    WrittenByte(u, g, buf, n, k);
  }

  predicate WritableConventional(z: Zone, start: nat, len: nat) {
    z.start == start && z.len == len && z.capacity == len && z.zoneType.Conventional?
    && z.condition.NotWritePointer? && z.writePointer.None?
  }

  /** A device of two writable conventional zones of the same length is valid. */
  lemma TwoConventionalZones(s: DeviceState, len: nat)
    requires |s.zones| == 2 && 0 < len < 0x1_0000
    requires WritableConventional(s.zones[0], 0, len) && WritableConventional(s.zones[1], len, len)
    requires |s.data| == SECTOR_SIZE * (2 * len)
    ensures ValidState(s)
  {
  }

  /** Two handles at the starts of two such zones, and a write longer than the first zone. */
  lemma LongWriteCrosses(s: DeviceState, len: nat, g: HandleState, h: HandleState, buf: seq<byte>)
    requires |s.zones| == 2 && 0 < len < 0x1_0000 && |s.data| == SECTOR_SIZE * (2 * len)
    requires WritableConventional(s.zones[0], 0, len) && WritableConventional(s.zones[1], len, len)
    requires g == HandleState(0, 0, len, len, 0) && h == HandleState(1, len, len, len, len) && |buf| > SECTOR_SIZE * len
    ensures ValidPair(s, g) && ValidPair(s, h) && h.index == g.index + 1
    ensures MayCross(s, g, buf) && TakesWrites(s, h) && h.writePointer == h.start
  {
    TwoConventionalZones(s, len);
  }

  /** There are such devices, of any zone length. */
  lemma SomeWriteCrosses(len: nat) returns (s: DeviceState, g: HandleState, h: HandleState, buf: seq<byte>)
    requires 0 < len < 0x1_0000
    ensures ValidPair(s, g) && ValidPair(s, h) && h.index == g.index + 1
    ensures MayCross(s, g, buf) && TakesWrites(s, h) && h.writePointer == h.start
  {
    hide ValidPair, MayCross, TakesWrites;
    var zones := seq(2, i => Zone(if i == 0 then 0 else len, len, len, None, Conventional, NotWritePointer));
    s := DeviceState(zones, Fill(SECTOR_SIZE * (2 * len), 0), 0, false);
    g, h := HandleState(0, 0, len, len, 0), HandleState(1, len, len, len, len);
    buf := Fill(SECTOR_SIZE * len + 1, 0);
    LongWriteCrosses(s, len, g, h, buf);
  }
}
