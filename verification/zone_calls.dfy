/** One call of `allocate` or `allocate_zone`: what it does when nothing interferes, and what its result
    says of the device when other threads do. */
module ZoneCalls {
  import opened ZonedTypes
  import opened DeviceModel
  import opened HandleModel
  import opened ZoneHandles
  import opened ZoneAllocators
  import opened ZoneSystem
  import opened ZoneRaces

  // ---------- undisturbed ----------

  /** Zone `i` is the lowest-index empty sequential-write-required zone not in use. */
  ghost predicate LowestFree(s: Sys, i: nat) {
    && i < |s.dev.zones| && s.dev.zones[i].zoneType == SequentialWriteRequired && s.dev.zones[i].condition == Empty
    && i !in s.inUse && NoneFree(s.dev.zones, i, s.inUse)
  }

  /** The zone the call is about: the one named, or for `allocate` the lowest one free. */
  ghost predicate Wanted(s: Sys, named: Option<nat>, i: nat) {
    if named.Some? then i == named.value else LowestFree(s, i)
  }

  /** The set, the calls and the handles once call `c` has reserved index `i` and stands at `call`. */
  ghost function Holding(s: Sys, c: nat, i: nat, call: Call): Sys {
    SetCall(s, c, call).(inUse := s.inUse + {i})
  }

  /** How a call that has not failed ends without a handle: nothing is free, or the zone named is taken. */
  ghost predicate Refused(s: Sys, named: Option<nat>, error: ZonedError) {
    match named
    case None => error == InvalidRange(0, 0) && NoneFree(s.dev.zones, |s.dev.zones|, s.inUse)
    case Some(i) => error == ZoneAlreadyAllocated(i) && i in s.inUse
  }

  /** Call `c`, begun in state `s` and the only one to act since, has led to state `t`. */
  ghost predicate Alone(s: Sys, named: Option<nat>, c: nat, t: Sys) {
    && ValidState(s.dev) && c in t.calls
    && var call := t.calls[c];
       match call
       case Scanning(seen) =>
         named.None? && |seen| <= |s.dev.zones| && seen == Descriptors(s.dev)[..|seen|] && t == SetCall(s, c, call)
       case Chosen(i, picked) => Wanted(s, named, i) && picked == named.None? && t == SetCall(s, c, call)
       case Reserved(i) => Wanted(s, named, i) && i !in s.inUse && t == Holding(s, c, i, call)
       case Read(i, zone) =>
         && Wanted(s, named, i) && i !in s.inUse && t == Holding(s, c, i, call)
         && i < |s.dev.zones| && zone == Descriptors(s.dev)[i]
       case Returned(h) => h !in s.handles && h in t.handles && Issued(s, named, c, h, t.handles[h].index, t)
       case Errored(error) => Refused(s, named, error) && t == SetCall(s, c, call)
       case RollingBack(_, _) => false
  }

  /** The call has issued handle `h` for zone `i`, made from its current descriptor. */
  ghost predicate Issued(s: Sys, named: Option<nat>, c: nat, h: nat, i: nat, t: Sys) {
    && Wanted(s, named, i) && i !in s.inUse && i < |s.dev.zones|
    && t == Holding(s, c, i, Returned(h)).(handles := s.handles[h := Opened(i, Descriptors(s.dev)[i])])
  }

  /** A step of call `c` in which nothing fails. */
  predicate OwnStep(e: Step, c: nat) {
    StepCall(e) == Some(c) && !e.ScanFails? && !e.ReadFails?
  }

  /** Any batch the device may report extends the snapshot by as many zones. */
  lemma ScanGoesOn(s: Sys, c: nat, t: Sys, n: nat)
    requires Alone(s, None, c, t) && t.calls[c].Scanning?
    requires 1 <= n <= 512 && |t.calls[c].seen| + n <= |s.dev.zones|
    ensures Can(t, ScanBatch(c, n)) && Alone(s, None, c, After(t, ScanBatch(c, n)))
    ensures After(t, ScanBatch(c, n)).calls[c].Scanning?
    ensures |After(t, ScanBatch(c, n)).calls[c].seen| == |t.calls[c].seen| + n
  {
    var u, seen, all := After(t, ScanBatch(c, n)), t.calls[c].seen, Descriptors(s.dev);
    assert seen + all[|seen|..|seen| + n] == all[..|seen| + n];
    assert u.calls == s.calls[c := u.calls[c]];
  }

  lemma PickGoesOn(s: Sys, c: nat, t: Sys)
    requires Alone(s, None, c, t) && Can(t, Pick(c))
    ensures Alone(s, None, c, After(t, Pick(c)))
  {
    var u, all := After(t, Pick(c)), Descriptors(s.dev);
    assert t.calls[c].seen == all;
    assert u.calls == s.calls[c := u.calls[c]];
    var free := FirstFree(all, s.inUse, 0);
    var n := if free.Some? then free.value else |all|;
    forall j | 0 <= j < n && s.dev.zones[j].zoneType == SequentialWriteRequired && s.dev.zones[j].condition == Empty
      ensures j in s.inUse
    {
      assert !Allocatable(all[j], j, s.inUse);
    }
  }

  /** Each own step leads on. */
  lemma AloneGoesOn(s: Sys, named: Option<nat>, c: nat, t: Sys, e: Step)
    requires Alone(s, named, c, t) && Can(t, e) && OwnStep(e, c)
    ensures Alone(s, named, c, After(t, e))
  {
    if e.ScanBatch? {
      ScanGoesOn(s, c, t, e.n);
    } else if e.Pick? {
      PickGoesOn(s, c, t);
    } else {
      var u := After(t, e);
      assert u.calls == s.calls[c := u.calls[c]];
    }
  }

  /** The first step of a call that names zone `named`, or none. */
  predicate Begins(e: Step, c: nat, named: Option<nat>) {
    e == if named.Some? then StartAllocateZone(c, named.value) else StartAllocate(c)
  }

  /** A call that nothing interferes with and nothing fails, however its scan is cut into batches: where it
      stands follows from the state in which it began. In the end `allocate` has issued a handle, in step
      and at its start, for the lowest-index empty sequential-write-required zone not in use, or there is
      none; `allocate_zone` has issued one for the zone named, or that was in use. */
  lemma {:induction false} UndisturbedCall(s: Sys, named: Option<nat>, c: nat, es: seq<Step>)
    requires CanAll(s, es) && es != [] && Begins(es[0], c, named)
    requires forall k :: 1 <= k < |es| ==> OwnStep(es[k], c)
    ensures Alone(s, named, c, AfterAll(s, es))
  {
    hide After, Can, Alone;
    var before, e := es[..|es| - 1], es[|es| - 1];
    if |es| == 1 {
      assert before == [];
      CallBegins(s, named, c, e);
    } else {
      UndisturbedCall(s, named, c, before);
      AloneGoesOn(s, named, c, AfterAll(s, before), e);
    }
  }

  lemma CallBegins(s: Sys, named: Option<nat>, c: nat, e: Step)
    requires Can(s, e) && Begins(e, c, named)
    ensures Alone(s, named, c, After(s, e))
  {
  }

  /** Spelled out for a call that has ended. */
  lemma UndisturbedAllocate(s: Sys, c: nat, es: seq<Step>, h: nat)
    requires CanAll(s, es) && es != [] && es[0] == StartAllocate(c) && forall k :: 1 <= k < |es| ==> OwnStep(es[k], c)
    ensures var t := AfterAll(s, es);
            && c in t.calls
            && (t.calls[c].Errored? ==> NoneFree(s.dev.zones, |s.dev.zones|, s.inUse) && t.inUse == s.inUse)
            && (t.calls[c] == Returned(h) ==>
                  && h in t.handles && LowestFree(s, t.handles[h].index)
                  && t.dev == s.dev && t.inUse == s.inUse + {t.handles[h].index}
                  && InStep(t.dev, t.handles[h]) && t.handles[h].writePointer == t.handles[h].start)
  {
    hide CanAll, AfterAll;
    UndisturbedCall(s, None, c, es);
    var t := AfterAll(s, es);
    if t.calls[c] == Returned(h) {
      OpenedValid(s.dev, t.handles[h].index);
      assert ValidAt(s.dev.zones, t.handles[h].index);
    }
  }

  /** Such a call never gets stuck: while it has not ended, one of its steps is possible, unless the zone
      named does not exist. */
  lemma CallGoesOn(s: Sys, named: Option<nat>, c: nat, t: Sys, h: nat) returns (e: Step)
    requires Alone(s, named, c, t) && !t.calls[c].Returned? && !t.calls[c].Errored?
    requires h !in s.handles && (named.Some? ==> named.value < |s.dev.zones|)
    ensures OwnStep(e, c) && Can(t, e) && t.calls[c] != After(t, e).calls[c]
  {
    match t.calls[c]
    case Scanning(seen) => e := if |seen| < |s.dev.zones| then ScanBatch(c, 1) else Pick(c);
    case Chosen(_, _) => e := TryReserve(c);
    case Reserved(_) => e := ReadZone(c);
    case Read(_, _) => e := Construct(c, h);
  }

  /** A call whose read fails after it reserved its zone takes the reservation back and reports the error. */
  lemma FailedReadGivesBack(s: Sys, c: nat, error: ZonedError, t: Sys, u: Sys)
    requires Can(s, TryReserve(c)) && s.calls[c].index !in s.inUse
    requires MayReport(s.dev, s.calls[c].index, error)
    requires t == After(s, TryReserve(c)) && u == After(t, ReadFails(c, error))
    ensures Can(t, ReadFails(c, error)) && Can(u, Rollback(c))
    ensures After(u, Rollback(c)) == SetCall(s, c, Errored(error))
  {
    assert After(u, Rollback(c)).calls == s.calls[c := Errored(error)];
  }

  /** A scan can fail at any batch, with the device's error, and leaves nothing behind. */
  lemma FailedScanGivesBack(s: Sys, c: nat)
    requires ValidState(s.dev) && c in s.calls && s.calls[c].Scanning?
    ensures Can(s, ScanFails(c))
    ensures exists error: ZonedError :: error.FromDevice() && After(s, ScanFails(c)) == SetCall(s, c, Errored(error))
  {
    assert After(s, ScanFails(c)) == SetCall(s, c, Errored(Ioctl));
  }

  /** Whatever the sequential handle can do, a thread that holds it can, at any moment and with that effect. */
  lemma UsedAnyTime(s: Sys, h: nat, e: HandleEvent)
    requires ValidState(s.dev) && h in s.handles && Enabled(s.dev, s.handles[h], e)
    ensures Can(s, Use(h, e))
    ensures After(s, Use(h, e))
            == s.(dev := DevAfter(s.dev, s.handles[h], e), handles := s.handles[h := HandleAfter(s.handles[h], e)])
  {
  }

  /** Issuing a handle and dropping it leaves set and handles as they were. */
  lemma DropUndoesIssue(s: Sys, named: Option<nat>, c: nat, t: Sys, h: nat)
    requires Alone(s, named, c, t) && t.calls[c] == Returned(h)
    ensures Can(t, Drop(h)) && After(t, Drop(h)) == SetCall(s, c, Returned(h))
  {
    var u := After(t, Drop(h));
    assert u.handles == s.handles && u.inUse == s.inUse;
  }

  /** A sequential-write-required zone that its handle has reset and given back can be allocated again. */
  lemma ResetAndDropFrees(s: Sys, h: nat, t: Sys, u: Sys)
    requires h in s.handles && ValidPair(s.dev, s.handles[h])
    requires s.dev.zones[s.handles[h].index].zoneType == SequentialWriteRequired
    requires s.dev.zones[s.handles[h].index].HasWritePointer()
    requires t == After(s, Use(h, Commanded(Reset))) && u == After(t, Drop(h))
    ensures Can(s, Use(h, Commanded(Reset))) && Can(t, Drop(h)) && s.handles[h].index < |u.dev.zones|
    ensures Allocatable(Descriptors(u.dev)[s.handles[h].index], s.handles[h].index, u.inUse)
  {
    EventValid(s.dev, s.handles[h], Commanded(Reset));
    ZoneInside(s.dev, s.handles[h].index);
  }

  // ---------- in any interleaving ----------

  lemma OthersLeaveCall(s: Sys, e: Step, c: nat)
    requires StepCall(e) != Some(c)
    ensures c in After(s, e).calls <==> c in s.calls
    ensures c in s.calls ==> After(s, e).calls[c] == s.calls[c]
  {
  }

  /** What one step of a scan adds to a snapshot. */
  lemma SeenGrows(s: Sys, e: Step, c: nat, j: nat)
    requires Can(s, e) && c in After(s, e).calls && After(s, e).calls[c].Scanning? && j < |After(s, e).calls[c].seen|
    requires StepCall(e) == Some(c)
    ensures e.ScanBatch? && c in s.calls && s.calls[c].Scanning?
    ensures if j < |s.calls[c].seen| then s.calls[c].seen[j] == After(s, e).calls[c].seen[j]
            else j < |s.dev.zones| && After(s, e).calls[c].seen[j] == Descriptors(s.dev)[j]
  {
  }

  /** Whatever the other threads do, entry `j` of a snapshot is what the device reported of zone `j` in some
      state since the call began. */
  lemma {:induction false} SeenWasReported(s: Sys, es: seq<Step>, c: nat, j: nat) returns (q: nat, p: nat)
    requires CanAll(s, es) && c !in s.calls
    requires c in AfterAll(s, es).calls && AfterAll(s, es).calls[c].Scanning? && j < |AfterAll(s, es).calls[c].seen|
    ensures q < p < |es| && es[q] == StartAllocate(c) && j < |At(s, es, p).dev.zones|
    ensures AfterAll(s, es).calls[c].seen[j] == Descriptors(At(s, es, p).dev)[j]
  {
    hide After, Can;
    var before, e := es[..|es| - 1], es[|es| - 1];
    var t := AfterAll(s, before);
    if StepCall(e) != Some(c) {
      OthersLeaveCall(t, e, c);
      q, p := SeenWasReported(s, before, c, j);
      assert before[..p] == es[..p];
    } else {
      SeenGrows(t, e, c, j);
      if j < |t.calls[c].seen| {
        q, p := SeenWasReported(s, before, c, j);
        assert before[..p] == es[..p];
      } else {
        q := ScanStarted(s, before, c);
        p := |es| - 1;
      }
    }
  }

  lemma WasScanning(s: Sys, e: Step, c: nat)
    requires c in After(s, e).calls && After(s, e).calls[c].Scanning? && e != StartAllocate(c)
    ensures c in s.calls && s.calls[c].Scanning?
  {
  }

  /** A call that scans has started as `allocate`. */
  lemma {:induction false} ScanStarted(s: Sys, es: seq<Step>, c: nat) returns (q: nat)
    requires CanAll(s, es) && c !in s.calls && c in AfterAll(s, es).calls && AfterAll(s, es).calls[c].Scanning?
    ensures q < |es| && es[q] == StartAllocate(c)
  {
    hide After, Can;
    var before, e := es[..|es| - 1], es[|es| - 1];
    if e == StartAllocate(c) {
      q := |es| - 1;
    } else {
      WasScanning(AfterAll(s, before), e, c);
      q := ScanStarted(s, before, c);
    }
  }

  /** Where `allocate` picks a zone, that zone was not in use at that moment, and was empty and
      sequential-write-required at some moment since the call began. */
  lemma PickedWasFree(s: Sys, es: seq<Step>, c: nat, i: nat) returns (q: nat, p: nat)
    requires CanAll(s, es + [Pick(c)]) && c !in s.calls
    requires c in AfterAll(s, es + [Pick(c)]).calls && AfterAll(s, es + [Pick(c)]).calls[c] == Chosen(i, true)
    ensures q < p < |es| && es[q] == StartAllocate(c)
    ensures var zones := At(s, es, p).dev.zones;
            i < |zones| && zones[i].zoneType == SequentialWriteRequired && zones[i].condition == Empty
    ensures i !in AfterAll(s, es).inUse
  {
    OneMoreStep(s, es, Pick(c));
    q, p := SeenWasReported(s, es, c, i);
  }

  /** A call that rolls back has met neither an abort nor the error that says nothing is free. */
  ghost predicate ProperRollback(s: Sys, c: nat) {
    c in s.calls && s.calls[c].RollingBack? ==> s.calls[c].error != InvalidRange(0, 0)
  }

  lemma NoSuchZoneIsNotFirst(s: DeviceState, index: nat)
    requires ValidState(s)
    ensures !MayReport(s, index, InvalidRange(0, 0))
  {
    if index >= |s.zones| {
      IndexTimesSize(s.zones, index);
      Ordered(s.zones);
    }
  }

  lemma StepKeepsProperRollback(s: Sys, e: Step, c: nat)
    requires Can(s, e) && ProperRollback(s, c)
    ensures ProperRollback(After(s, e), c)
  {
    if e.ReadFails? && e.c == c {
      NoSuchZoneIsNotFirst(s.dev, s.calls[c].index);
    } else if StepCall(e) != Some(c) {
      OthersLeaveCall(s, e, c);
    }
  }

  lemma {:induction false} RollbackIsProper(s: Sys, es: seq<Step>, c: nat)
    requires CanAll(s, es) && c !in s.calls
    ensures ProperRollback(AfterAll(s, es), c)
  {
    hide After, Can, ProperRollback;
    if es == [] {
      NotRollingBack(s, c);
    } else {
      RollbackIsProper(s, es[..|es| - 1], c);
      StepKeepsProperRollback(AfterAll(s, es[..|es| - 1]), es[|es| - 1], c);
    }
  }

  lemma NotRollingBack(s: Sys, c: nat)
    requires c !in s.calls
    ensures ProperRollback(s, c)
  {
  }

  /** The call ended with this step, for want of a zone. */
  ghost predicate EmptyHanded(s: Sys, c: nat) {
    c in s.calls && s.calls[c] == Errored(InvalidRange(0, 0))
  }

  lemma EmptyHandedByPick(s: Sys, e: Step, c: nat)
    requires Can(s, e) && ProperRollback(s, c) && EmptyHanded(After(s, e), c) && !EmptyHanded(s, c)
    ensures e == Pick(c) && c in s.calls && s.calls[c].Scanning? && |s.calls[c].seen| == |s.dev.zones|
    ensures NoneFree(s.calls[c].seen, |s.calls[c].seen|, s.inUse)
  {
    if StepCall(e) != Some(c) {
      OthersLeaveCall(s, e, c);
    }
    assert e == Pick(c);
    var seen := s.calls[c].seen;
    assert FirstFree(seen, s.inUse, 0).None?;
    forall j | 0 <= j < |seen| && seen[j].zoneType == SequentialWriteRequired && seen[j].condition == Empty
      ensures j in s.inUse
    {
      assert !Allocatable(seen[j], j, s.inUse);
    }
  }

  /** Whatever the other threads do, `allocate` reports that there is no zone only after a scan of all zones
      whose snapshot, together with the set at that moment, left none free. */
  lemma {:induction false} NothingWasFree(s: Sys, es: seq<Step>, c: nat) returns (p: nat)
    requires CanAll(s, es) && c !in s.calls && EmptyHanded(AfterAll(s, es), c)
    ensures p < |es| && es[p] == Pick(c)
    ensures var t := At(s, es, p);
            && c in t.calls && t.calls[c].Scanning? && |t.calls[c].seen| == |t.dev.zones|
            && NoneFree(t.calls[c].seen, |t.calls[c].seen|, t.inUse)
  {
    hide After, Can, ProperRollback, NoneFree;
    var before, e := es[..|es| - 1], es[|es| - 1];
    if EmptyHanded(AfterAll(s, before), c) {
      p := NothingWasFree(s, before, c);
      assert before[..p] == es[..p];
    } else {
      RollbackIsProper(s, before, c);
      EmptyHandedByPick(AfterAll(s, before), e, c);
      p := |es| - 1;
    }
  }
}
