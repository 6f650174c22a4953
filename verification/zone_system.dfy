/** Threads sharing one allocator and one device: every interleaving of the steps of `allocate`,
    `allocate_zone`, the operations of live handles, and their drops. */
module ZoneSystem {
  import opened ZonedTypes
  import opened DeviceModel
  import opened HandleModel
  import opened ZoneHandles
  import opened ZoneAllocators

  /** Where one call of `allocate` or `allocate_zone` stands. */
  datatype Call =
    | Scanning(seen: seq<Zone>)
      /** Index chosen; `picked` when `allocate` chose it, the lock being dropped again. */
    | Chosen(index: nat, picked: bool)
    | Reserved(index: nat)
    | Read(index: nat, zone: Zone)
    | RollingBack(index: nat, error: ZonedError)
    | Returned(handle: nat)
    | Errored(error: ZonedError)
  {
    /** The index in the allocated set this call is responsible for. */
    function Owns(): Option<nat> {
      match this
      case Reserved(i) => Some(i)
      case Read(i, _) => Some(i)
      case RollingBack(i, _) => Some(i)
      case _ => None
    }
  }

  datatype Sys = Sys(dev: DeviceState, inUse: set<nat>, calls: map<nat, Call>, handles: map<nat, HandleState>)

  datatype Step =
    | StartAllocate(c: nat)
    | StartAllocateZone(c: nat, index: nat)
    | ScanBatch(c: nat, n: nat)
    | ScanFails(c: nat)
    | Pick(c: nat)
    | TryReserve(c: nat)
    | ReadZone(c: nat)
    | ReadFails(c: nat, error: ZonedError)
    | Construct(c: nat, handle: nat)
    | Rollback(c: nat)
    | Use(handle: nat, e: HandleEvent)
    | Drop(handle: nat)
    | Release(index: nat)

  /** The call that takes the step. */
  function StepCall(e: Step): Option<nat> {
    match e
    case StartAllocate(c) => Some(c)
    case StartAllocateZone(c, _) => Some(c)
    case ScanBatch(c, _) => Some(c)
    case ScanFails(c) => Some(c)
    case Pick(c) => Some(c)
    case TryReserve(c) => Some(c)
    case ReadZone(c) => Some(c)
    case ReadFails(c, _) => Some(c)
    case Construct(c, _) => Some(c)
    case Rollback(c) => Some(c)
    case _ => None
  }

  /** Lowest index, from `i` on, that a snapshot offers for allocation. */
  function FirstFree(seen: seq<Zone>, inUse: set<nat>, i: nat): (r: Option<nat>)
    ensures r.Some? ==> i <= r.value < |seen| && Allocatable(seen[r.value], r.value, inUse)
    ensures forall j :: i <= j < (if r.Some? then r.value else |seen|) ==> !Allocatable(seen[j], j, inUse)
    decreases |seen| - i
  {
    if i >= |seen| then None
    else if Allocatable(seen[i], i, inUse) then Some(i)
    else FirstFree(seen, inUse, i + 1)
  }

  /** How opening a handle on a reserved index can fail: in the device, or for want of the zone; an overflow
      aborts the call instead. */
  predicate MayReport(s: DeviceState, index: nat, error: ZonedError) {
    error.FromDevice() || (NoSuchZone(s, index, error) && !error.Overflow?)
  }

  /** May step `e` be taken in state `s`? */
  ghost predicate Can(s: Sys, e: Step) {
    && ValidState(s.dev)
    && match e
       case StartAllocate(c) => c !in s.calls
       case StartAllocateZone(c, _) => c !in s.calls
       case ScanBatch(c, n) =>
         c in s.calls && s.calls[c].Scanning? && 1 <= n <= 512 && |s.calls[c].seen| + n <= |s.dev.zones|
       case ScanFails(c) => c in s.calls && s.calls[c].Scanning?
       case Pick(c) => c in s.calls && s.calls[c].Scanning? && |s.calls[c].seen| == |s.dev.zones|
       case TryReserve(c) => c in s.calls && s.calls[c].Chosen?
       case ReadZone(c) => c in s.calls && s.calls[c].Reserved? && s.calls[c].index < |s.dev.zones|
       case ReadFails(c, error) => c in s.calls && s.calls[c].Reserved? && MayReport(s.dev, s.calls[c].index, error)
       case Construct(c, h) => c in s.calls && s.calls[c].Read? && h !in s.handles
       case Rollback(c) => c in s.calls && s.calls[c].RollingBack?
       case Use(h, ev) => h in s.handles && Enabled(s.dev, s.handles[h], ev)
       case Drop(h) => h in s.handles
       case Release(_) => true
  }

  ghost function SetCall(s: Sys, c: nat, call: Call): Sys {
    s.(calls := s.calls[c := call])
  }

  /** The state after step `e`; a step that cannot be taken changes nothing. */
  ghost function After(s: Sys, e: Step): Sys {
    if !Can(s, e) then s else
      match e
      case StartAllocate(c) => SetCall(s, c, Scanning([]))
      case StartAllocateZone(c, i) => SetCall(s, c, Chosen(i, false))
      case ScanBatch(c, n) =>
        var seen := s.calls[c].seen;
        SetCall(s, c, Scanning(seen + Descriptors(s.dev)[|seen|..|seen| + n]))
      case ScanFails(c) => SetCall(s, c, Errored(Ioctl))
      case Pick(c) =>
        var free := FirstFree(s.calls[c].seen, s.inUse, 0);
        SetCall(s, c, if free.Some? then Chosen(free.value, true) else Errored(InvalidRange(0, 0)))
      case TryReserve(c) =>
        var i := s.calls[c].index;
        if i in s.inUse then SetCall(s, c, Errored(ZoneAlreadyAllocated(i)))
        else SetCall(s, c, Reserved(i)).(inUse := s.inUse + {i})
      case ReadZone(c) => SetCall(s, c, Read(s.calls[c].index, Descriptors(s.dev)[s.calls[c].index]))
      case ReadFails(c, error) => SetCall(s, c, RollingBack(s.calls[c].index, error))
      case Construct(c, h) =>
        SetCall(s, c, Returned(h)).(handles := s.handles[h := Opened(s.calls[c].index, s.calls[c].zone)])
      case Rollback(c) => SetCall(s, c, Errored(s.calls[c].error)).(inUse := s.inUse - {s.calls[c].index})
      case Use(h, ev) =>
        s.(dev := DevAfter(s.dev, s.handles[h], ev), handles := s.handles[h := HandleAfter(s.handles[h], ev)])
      case Drop(h) => s.(inUse := s.inUse - {s.handles[h].index}, handles := s.handles - {h})
      case Release(i) => s.(inUse := s.inUse - {i})
  }

  // ---------- exclusive ownership ----------

  datatype Owner = ByCall(c: nat) | ByHandle(h: nat)

  /** Owner `o` is responsible for index `i`. */
  ghost predicate Owns(s: Sys, o: Owner, i: nat) {
    match o
    case ByCall(c) => c in s.calls && s.calls[c].Owns() == Some(i)
    case ByHandle(h) => h in s.handles && s.handles[h].index == i
  }

  /** The allocated set is exactly the disjoint union of the indices reserved by calls under way and
      the indices of live handles. */
  ghost predicate Exclusive(s: Sys) {
    && (forall o, i :: Owns(s, o, i) ==> i in s.inUse)
    && (forall i :: i in s.inUse ==> exists o :: Owns(s, o, i))
    && (forall o, p, i :: Owns(s, o, i) && Owns(s, p, i) ==> o == p)
  }

  lemma OwnersSame(s: Sys, t: Sys)
    requires Exclusive(s) && t.inUse == s.inUse
    requires forall o, i :: Owns(t, o, i) <==> Owns(s, o, i)
    ensures Exclusive(t)
  {
    forall i | i in t.inUse
      ensures exists o :: Owns(t, o, i)
    {
      var o :| Owns(s, o, i);
      assert Owns(t, o, i);
    }
  }

  lemma OwnerGained(s: Sys, t: Sys, o: Owner, i: nat)
    requires Exclusive(s) && i !in s.inUse && t.inUse == s.inUse + {i}
    requires forall p, j :: Owns(t, p, j) <==> Owns(s, p, j) || (p == o && j == i)
    ensures Exclusive(t)
  {
    forall j | j in t.inUse
      ensures exists p :: Owns(t, p, j)
    {
      if j == i {
        assert Owns(t, o, i);
      } else {
        var p :| Owns(s, p, j);
        assert Owns(t, p, j);
      }
    }
  }

  lemma OwnerLost(s: Sys, t: Sys, o: Owner, i: nat)
    requires Exclusive(s) && Owns(s, o, i) && t.inUse == s.inUse - {i}
    requires forall p, j :: Owns(t, p, j) <==> Owns(s, p, j) && p != o
    requires forall j :: Owns(s, o, j) ==> j == i
    ensures Exclusive(t)
  {
    forall j | j in t.inUse
      ensures exists p :: Owns(t, p, j)
    {
      var p :| Owns(s, p, j);
      assert p != o;
      assert Owns(t, p, j);
    }
  }

  lemma OwnerPassed(s: Sys, t: Sys, o: Owner, p: Owner, i: nat)
    requires Exclusive(s) && Owns(s, o, i) && t.inUse == s.inUse
    requires forall j :: !Owns(s, p, j)
    requires forall j :: Owns(s, o, j) ==> j == i
    requires forall q, j :: Owns(t, q, j) <==> (Owns(s, q, j) && q != o) || (q == p && j == i)
    ensures Exclusive(t)
  {
    forall j | j in t.inUse
      ensures exists q :: Owns(t, q, j)
    {
      var q :| Owns(s, q, j);
      assert Owns(t, if q == o then p else q, j);
    }
  }

  /** Every step but an explicit release keeps ownership exclusive. */
  lemma StepKeepsExclusive(s: Sys, e: Step)
    requires Exclusive(s) && Can(s, e) && !e.Release?
    ensures Exclusive(After(s, e))
  {
    var t := After(s, e);
    match e
    case TryReserve(c) =>
      if s.calls[c].index in s.inUse {
        OwnersSame(s, t);
      } else {
        OwnerGained(s, t, ByCall(c), s.calls[c].index);
      }
    case Construct(c, h) => OwnerPassed(s, t, ByCall(c), ByHandle(h), s.calls[c].index);
    case Rollback(c) => OwnerLost(s, t, ByCall(c), s.calls[c].index);
    case Drop(h) => OwnerLost(s, t, ByHandle(h), s.handles[h].index);
    case _ => OwnersSame(s, t);
  }

  /** An explicit release keeps ownership exclusive exactly when it changes nothing, that is when the
      index is in no one's hands. */
  lemma ReleaseKeepsExclusive(s: Sys, i: nat)
    requires Exclusive(s) && ValidState(s.dev)
    ensures Exclusive(After(s, Release(i))) <==> i !in s.inUse
    ensures i in s.inUse <==> exists o :: Owns(s, o, i)
  {
    var t := After(s, Release(i));
    if i in s.inUse {
      var o :| Owns(s, o, i);
      assert Owns(t, o, i);
    } else {
      assert t == s;
    }
  }

  // ---------- handles against the device ----------

  ghost predicate HandleValid(s: Sys, h: nat) {
    h in s.handles ==> ValidPair(s.dev, s.handles[h])
  }

  /** A call that has read its zone holds the zone's current descriptor. */
  ghost predicate ReadCurrent(s: Sys, c: nat) {
    c in s.calls && s.calls[c].Read? ==>
      s.calls[c].index < |s.dev.zones| && s.calls[c].zone == Reported(s.dev.zones[s.calls[c].index], s.dev.sentinel)
  }

  ghost predicate Inv(s: Sys) {
    && ValidState(s.dev)
    && Exclusive(s)
    && (forall h: nat :: HandleValid(s, h))
    && (forall c: nat :: ReadCurrent(s, c))
  }

  /** An operation through a handle leaves every other zone's descriptor alone. */
  lemma EventTouchesOwnZone(s: DeviceState, h: HandleState, e: HandleEvent, j: nat)
    requires ValidPair(s, h) && j < |s.zones| && j != h.index
    ensures |DevAfter(s, h, e).zones| == |s.zones|
    ensures DevAfter(s, h, e).zones[j] == s.zones[j]
  {
    if Enabled(s, h, e) {
      assert ValidAt(s.zones, h.index);
      match e
      case Wrote(buf, n) =>
        WriteInside(s, h.writePointer, n);
        IndexUnique(s.zones, h.writePointer, h.index);
      case Commanded(c) => ZoneInside(s, h.index);
      case Failed =>
    }
  }

  lemma ValidPairKept(s: DeviceState, t: DeviceState, h: HandleState)
    requires ValidPair(s, h) && ValidState(t) && SameLayout(t.zones, s.zones)
    ensures ValidPair(t, h)
  {
    SameIndex(t.zones, s.zones, 0);
    assert SameShape(t.zones[h.index], s.zones[h.index]);
  }

  lemma UseKeepsInv(s: Sys, h: nat, e: HandleEvent)
    requires Inv(s) && Can(s, Use(h, e))
    ensures Inv(After(s, Use(h, e)))
  {
    var t := After(s, Use(h, e));
    StepKeepsExclusive(s, Use(h, e));
    assert HandleValid(s, h);
    EventValid(s.dev, s.handles[h], e);
    forall g: nat
      ensures HandleValid(t, g)
    {
      assert HandleValid(s, g);
      if g in s.handles && g != h {
        ValidPairKept(s.dev, t.dev, s.handles[g]);
      }
    }
    forall c: nat
      ensures ReadCurrent(t, c)
    {
      assert ReadCurrent(s, c);
      if c in s.calls && s.calls[c].Read? {
        assert Owns(s, ByCall(c), s.calls[c].index) && Owns(s, ByHandle(h), s.handles[h].index);
        EventTouchesOwnZone(s.dev, s.handles[h], e, s.calls[c].index);
      }
    }
  }

  lemma ConstructKeepsInv(s: Sys, c: nat, h: nat)
    requires Inv(s) && Can(s, Construct(c, h))
    ensures Inv(After(s, Construct(c, h)))
  {
    var t := After(s, Construct(c, h));
    StepKeepsExclusive(s, Construct(c, h));
    assert ReadCurrent(s, c);
    OpenedValid(s.dev, s.calls[c].index);
    forall g: nat
      ensures HandleValid(t, g)
    {
      assert HandleValid(s, g);
    }
    forall d: nat
      ensures ReadCurrent(t, d)
    {
      assert ReadCurrent(s, d);
    }
  }

  lemma StepKeepsInv(s: Sys, e: Step)
    requires Inv(s) && Can(s, e) && !e.Release?
    ensures Inv(After(s, e))
  {
    if e.Use? {
      UseKeepsInv(s, e.handle, e.e);
    } else if e.Construct? {
      ConstructKeepsInv(s, e.c, e.handle);
    } else {
      var t := After(s, e);
      StepKeepsExclusive(s, e);
      forall g: nat
        ensures HandleValid(t, g)
      {
        assert HandleValid(s, g);
      }
      forall d: nat
        ensures ReadCurrent(t, d)
      {
        assert ReadCurrent(s, d);
      }
    }
  }

  // ---------- agreement of the pointers ----------

  /** Where the device's zone has a meaningful pointer, the handle's pointer agrees with it. */
  ghost predicate HandleAgrees(s: Sys, h: nat) {
    h in s.handles && s.handles[h].index < |s.dev.zones| && s.dev.zones[s.handles[h].index].HasWritePointer() ==>
      InStep(s.dev, s.handles[h])
  }

  ghost predicate Agreement(s: Sys) {
    forall h: nat :: HandleAgrees(s, h)
  }

  /** If the step constructs handle `h`, the zone its call has read showed its pointer. */
  ghost predicate ShownFor(s: Sys, e: Step, h: nat) {
    e.Construct? && e.handle == h && e.c in s.calls && s.calls[e.c].Read? && s.calls[e.c].zone.HasWritePointer() ==>
      s.calls[e.c].zone.writePointer.Some?
  }

  /** What the step asks of the user of handle `h`, and of no one else: its own writes are accepted in whole
      sectors, and it was not made from a hidden pointer. */
  ghost predicate CarefulFor(s: Sys, e: Step, h: nat) {
    (e.Use? && e.handle == h ==> WholeSectors(e.e)) && ShownFor(s, e, h)
  }

  /** A reset or finish through the handle sets both pointers anew. */
  predicate Settles(e: Step, h: nat) {
    e.Use? && e.handle == h && e.e.Commanded? && (e.e.c.Reset? || e.e.c.Finish?)
  }

  lemma StaysAgreed(s: DeviceState, t: DeviceState, h: HandleState)
    requires h.index < |s.zones| == |t.zones| && t.zones[h.index] == s.zones[h.index]
    ensures InStep(t, h) <==> InStep(s, h)
  {
  }

  lemma OwnAgreement(s: DeviceState, h: HandleState, e: HandleEvent)
    requires ValidPair(s, h) && Enabled(s, h, e) && WholeSectors(e)
    requires (s.zones[h.index].HasWritePointer() ==> InStep(s, h)) || e == Commanded(Reset) || e == Commanded(Finish)
    ensures ValidPair(DevAfter(s, h, e), HandleAfter(h, e))
    ensures DevAfter(s, h, e).zones[h.index].HasWritePointer() ==> InStep(DevAfter(s, h, e), HandleAfter(h, e))
  {
    EventValid(s, h, e);
    assert ValidAt(s.zones, h.index);
    if e.Commanded? {
      ZoneInside(s, h.index);
    } else if s.zones[h.index].HasWritePointer() {
      EventKeepsStep(s, h, e);
    } else if e.Wrote? {
      WriteInside(s, h.writePointer, e.n);
      IndexUnique(s.zones, h.writePointer, h.index);
    }
  }

  lemma UseKeepsHandleAgreement(s: Sys, e: Step, h: nat)
    requires Inv(s) && Can(s, e) && e.Use? && CarefulFor(s, e, h) && (HandleAgrees(s, h) || Settles(e, h))
    ensures HandleAgrees(After(s, e), h)
  {
    var t, g := After(s, e), e.handle;
    assert HandleValid(s, g) && HandleValid(s, h);
    if h in s.handles {
      if g == h {
        OwnAgreement(s.dev, s.handles[h], e.e);
      } else {
        assert Owns(s, ByHandle(g), s.handles[g].index) && Owns(s, ByHandle(h), s.handles[h].index);
        EventTouchesOwnZone(s.dev, s.handles[g], e.e, s.handles[h].index);
        StaysAgreed(s.dev, t.dev, s.handles[h]);
      }
    }
  }

  /** Whatever other threads do, a step keeps the agreement of handle `h` if it is careful for `h`. */
  lemma StepKeepsHandleAgreement(s: Sys, e: Step, h: nat)
    requires Inv(s) && Can(s, e) && CarefulFor(s, e, h) && (HandleAgrees(s, h) || Settles(e, h))
    ensures HandleAgrees(After(s, e), h)
  {
    if e.Use? {
      UseKeepsHandleAgreement(s, e, h);
    } else if e.Construct? && e.handle == h {
      ConstructAgreesIfShown(s, e.c, h);
      assert ReadCurrent(s, e.c);
    }
  }

  // ---------- runs ----------

  ghost function AfterAll(s: Sys, es: seq<Step>): Sys {
    if es == [] then s else After(AfterAll(s, es[..|es| - 1]), es[|es| - 1])
  }

  /** Every step of the run can be taken where it happens. */
  ghost predicate CanAll(s: Sys, es: seq<Step>) {
    es == [] || (CanAll(s, es[..|es| - 1]) && Can(AfterAll(s, es[..|es| - 1]), es[|es| - 1]))
  }

  ghost predicate NoRelease(es: seq<Step>) {
    forall i :: 0 <= i < |es| ==> !es[i].Release?
  }

  /** Since handle `h` was last settled, or made, every step was careful for it. */
  ghost predicate AllCarefulFor(s: Sys, es: seq<Step>, h: nat) {
    es == [] ||
    Settles(es[|es| - 1], h) ||
    (AllCarefulFor(s, es[..|es| - 1], h) && CarefulFor(AfterAll(s, es[..|es| - 1]), es[|es| - 1], h))
  }

  ghost predicate AllCareful(s: Sys, es: seq<Step>) {
    forall h: nat :: AllCarefulFor(s, es, h)
  }

  ghost predicate Init(s: Sys) {
    ValidState(s.dev) && s.inUse == {} && s.calls == map[] && s.handles == map[]
  }

  /** In every state reachable without an explicit release: the allocated set is exactly the disjoint
      union of the indices reserved by calls under way and the indices of live handles, each handle
      matches its zone, and what a constructing call has read is current. */
  lemma {:induction false} OwnershipInEveryRun(s: Sys, es: seq<Step>)
    requires Init(s) && CanAll(s, es) && NoRelease(es)
    ensures Inv(AfterAll(s, es))
  {
    if es == [] {
    } else {
      OwnershipInEveryRun(s, es[..|es| - 1]);
      StepKeepsInv(AfterAll(s, es[..|es| - 1]), es[|es| - 1]);
    }
  }

  /** In every such state a handle's pointer agrees with its device zone, if since its last reset or finish
      its own writes were accepted in whole sectors, and it was not made from a hidden pointer. It does
      not matter what snapshot `allocate` acted on, nor what the other threads wrote or read. */
  lemma {:induction false} HandleAgreesInEveryRun(s: Sys, es: seq<Step>, h: nat)
    requires Init(s) && CanAll(s, es) && NoRelease(es) && AllCarefulFor(s, es, h)
    ensures HandleAgrees(AfterAll(s, es), h)
  {
    hide After, Can, Inv, HandleAgrees, CarefulFor, NoRelease;
    if es == [] {
      NoHandleYet(s, h);
    } else {
      var before, e := es[..|es| - 1], es[|es| - 1];
      BeforeLast(es);
      OwnershipInEveryRun(s, before);
      if Settles(e, h) {
        SettlingIsCareful(AfterAll(s, before), e, h);
      } else {
        HandleAgreesInEveryRun(s, before, h);
      }
      StepKeepsHandleAgreement(AfterAll(s, before), e, h);
    }
  }

  lemma NoHandleYet(s: Sys, h: nat)
    requires Init(s)
    ensures HandleAgrees(s, h)
  {
  }

  lemma BeforeLast(es: seq<Step>)
    requires NoRelease(es) && es != []
    ensures NoRelease(es[..|es| - 1])
  {
  }

  lemma SettlingIsCareful(s: Sys, e: Step, h: nat)
    requires Settles(e, h)
    ensures CarefulFor(s, e, h)
  {
  }

  /** The same for all handles at once. */
  lemma PointersAgreeInEveryRun(s: Sys, es: seq<Step>)
    requires Init(s) && CanAll(s, es) && NoRelease(es) && AllCareful(s, es)
    ensures Inv(AfterAll(s, es)) && Agreement(AfterAll(s, es))
  {
    OwnershipInEveryRun(s, es);
    hide AfterAll, CanAll, NoRelease, AllCarefulFor, HandleAgrees;
    forall h: nat
      ensures HandleAgrees(AfterAll(s, es), h)
    {
      assert AllCarefulFor(s, es, h);
      HandleAgreesInEveryRun(s, es, h);
    }
  }

  /** No two live handles are for the same zone. */
  lemma OneHandlePerZone(s: Sys, es: seq<Step>, g: nat, h: nat)
    requires Init(s) && CanAll(s, es) && NoRelease(es)
    requires g in AfterAll(s, es).handles && h in AfterAll(s, es).handles
    requires AfterAll(s, es).handles[g].index == AfterAll(s, es).handles[h].index
    ensures g == h && AfterAll(s, es).handles[g].index in AfterAll(s, es).inUse
  {
    OwnershipInEveryRun(s, es);
    var t := AfterAll(s, es);
    hide AfterAll, CanAll, ValidState;
    assert Owns(t, ByHandle(g), t.handles[g].index) && Owns(t, ByHandle(h), t.handles[g].index);
  }

  /** A live handle on a zone with a meaningful pointer: the two pointers are equal, or both are at or
      past the zone's capacity. */
  lemma LivePointerAgrees(s: Sys, es: seq<Step>, h: nat)
    requires Init(s) && CanAll(s, es) && NoRelease(es) && AllCarefulFor(s, es, h)
    requires h in AfterAll(s, es).handles
    ensures var t := AfterAll(s, es);
            var g := t.handles[h];
            && g.index < |t.dev.zones|
            && (t.dev.zones[g.index].HasWritePointer() ==> Agrees(t.dev.zones[g.index], g.writePointer))
  {
    OwnershipInEveryRun(s, es);
    HandleAgreesInEveryRun(s, es, h);
    var t := AfterAll(s, es);
    hide AfterAll, CanAll, AllCarefulFor, ValidState;
    assert HandleValid(t, h) && HandleAgrees(t, h);
  }

  /** Every buffer written through handle `h` is whole sectors. */
  ghost predicate WholeBuffersOf(es: seq<Step>, h: nat) {
    forall i :: 0 <= i < |es| ==> es[i].Use? && es[i].handle == h && es[i].e.Wrote? ==> |es[i].e.buf| % SECTOR_SIZE == 0
  }

  /** Handle `h` was not made from a hidden pointer. */
  ghost predicate AllShownFor(s: Sys, es: seq<Step>, h: nat) {
    es == [] || (AllShownFor(s, es[..|es| - 1], h) && ShownFor(AfterAll(s, es[..|es| - 1]), es[|es| - 1], h))
  }

  lemma WholeBufferIsCareful(s: Sys, e: Step, h: nat)
    requires Can(s, e) && ShownFor(s, e, h) && (e.Use? && e.handle == h && e.e.Wrote? ==> |e.e.buf| % SECTOR_SIZE == 0)
    ensures CarefulFor(s, e, h)
  {
  }

  lemma {:induction false} WholeBuffersAreCareful(s: Sys, es: seq<Step>, h: nat)
    requires CanAll(s, es) && WholeBuffersOf(es, h) && AllShownFor(s, es, h)
    ensures AllCarefulFor(s, es, h)
  {
    hide After, Can, CarefulFor, ShownFor;
    if es == [] {
    } else {
      WholeBuffersAreCareful(s, es[..|es| - 1], h);
      WholeBufferIsCareful(AfterAll(s, es[..|es| - 1]), es[|es| - 1], h);
    }
  }

  /** The agreement in terms the user of one handle can meet: if every buffer written through it is whole
      sectors and it was not made from a hidden pointer, its pointer agrees with its zone in every
      interleaving, whatever the others do. */
  lemma WholeBuffersAgree(s: Sys, es: seq<Step>, h: nat)
    requires Init(s) && CanAll(s, es) && NoRelease(es) && WholeBuffersOf(es, h) && AllShownFor(s, es, h)
    requires h in AfterAll(s, es).handles
    ensures var t := AfterAll(s, es);
            var g := t.handles[h];
            && g.index < |t.dev.zones|
            && (t.dev.zones[g.index].HasWritePointer() ==> Agrees(t.dev.zones[g.index], g.writePointer))
  {
    hide AfterAll, CanAll, AllCarefulFor, AllShownFor, WholeBuffersOf;
    WholeBuffersAreCareful(s, es, h);
    LivePointerAgrees(s, es, h);
  }

  lemma StepKeepsSentinel(s: Sys, e: Step)
    ensures After(s, e).dev.sentinel == s.dev.sentinel
  {
  }

  lemma ShownWithoutSentinel(s: Sys, e: Step, h: nat)
    requires Inv(s) && !s.dev.sentinel
    ensures ShownFor(s, e, h)
  {
    if e.Construct? {
      assert ReadCurrent(s, e.c);
      assert e.c in s.calls && s.calls[e.c].Read? ==> ValidAt(s.dev.zones, s.calls[e.c].index);
    }
  }

  /** A platform without the sentinel never hides a pointer. */
  lemma {:induction false} NothingHidden(s: Sys, es: seq<Step>, h: nat)
    requires Init(s) && CanAll(s, es) && NoRelease(es) && !s.dev.sentinel
    ensures AllShownFor(s, es, h) && !AfterAll(s, es).dev.sentinel
  {
    hide After, Can, Inv, ShownFor, NoRelease;
    if es == [] {
    } else {
      var before := es[..|es| - 1];
      BeforeLast(es);
      NothingHidden(s, before, h);
      OwnershipInEveryRun(s, before);
      ShownWithoutSentinel(AfterAll(s, before), es[|es| - 1], h);
      StepKeepsSentinel(AfterAll(s, before), es[|es| - 1]);
    }
  }

  /** The condition on hidden pointers is exact: a handle constructed from what its call has read is in
      step with its zone if and only if the report showed the zone's pointer. */
  lemma ConstructAgreesIfShown(s: Sys, c: nat, h: nat)
    requires Inv(s) && Can(s, Construct(c, h))
    ensures s.calls[c].index < |s.dev.zones|
    ensures s.dev.zones[s.calls[c].index].HasWritePointer() ==>
              (InStep(After(s, Construct(c, h)).dev, After(s, Construct(c, h)).handles[h]) <==> s.calls[c].zone.writePointer.Some?)
  {
    assert ReadCurrent(s, c);
    assert ValidAt(s.dev.zones, s.calls[c].index);
    OpenedValid(s.dev, s.calls[c].index);
  }
}
