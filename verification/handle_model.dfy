/** What operations through one zone handle do to the handle and to the device, as values: single
    events, runs of them, and the loop of `write_all_sequential`. */
module HandleModel {
  import opened ZonedTypes
  import opened DeviceModel

  datatype HandleState = HandleState(index: nat, start: nat, len: nat, capacity: nat, writePointer: nat) {
    function CapacityEnd(): nat {
      start + capacity
    }
  }

  /** One device call through the handle: a write of which `n` bytes were accepted (single or
      gathered), a zone command that succeeded, or a call that failed. */
  datatype HandleEvent = Wrote(buf: seq<byte>, n: nat) | Commanded(c: ZoneCommand) | Failed

  /** A device and a handle on it. */
  type Pair = (DeviceState, HandleState)

  ghost predicate Matches(s: DeviceState, h: HandleState) {
    && h.index < |s.zones|
    && s.zones[h.index].start == h.start
    && s.zones[h.index].len == h.len
    && s.zones[h.index].capacity == h.capacity
  }

  ghost predicate ValidPair(s: DeviceState, h: HandleState) {
    && ValidState(s)
    && Matches(s, h)
    && h.start <= h.writePointer <= End(s.zones)
  }

  /** Local pointer and device pointer agree: equal, or both at or past the capacity. */
  predicate Agrees(z: Zone, writePointer: nat) {
    && z.writePointer.Some?
    && (writePointer == z.writePointer.value || (writePointer >= z.CapacityEnd() && z.writePointer.value >= z.CapacityEnd()))
  }

  /** The handle's zone has a meaningful pointer and the handle's own one agrees with it. */
  ghost predicate InStep(s: DeviceState, h: HandleState) {
    h.index < |s.zones| && s.zones[h.index].HasWritePointer() && Agrees(s.zones[h.index], h.writePointer)
  }

  predicate Enabled(s: DeviceState, h: HandleState, e: HandleEvent)
    requires ValidState(s)
  {
    match e
    case Wrote(buf, n) => h.writePointer < h.CapacityEnd() && WriteAllowed(s, h.writePointer, |buf|, n)
    case _ => true
  }

  /** The device after the event; an event that is not enabled, and a command the zone rejects,
      change nothing. */
  ghost function DevAfter(s: DeviceState, h: HandleState, e: HandleEvent): DeviceState {
    if !ValidState(s) || !Enabled(s, h, e) then s else
      match e
      case Wrote(buf, n) => AfterWrite(s, h.writePointer, buf[..n])
      case Commanded(c) =>
        if h.index < |s.zones| then
          ZoneInside(s, h.index);
          CommandZone(s, c, h.index)
        else s
      case Failed => s
  }

  /** The handle after the event: a write advances the pointer by the whole sectors accepted. */
  function HandleAfter(h: HandleState, e: HandleEvent): HandleState {
    match e
    case Wrote(_, n) => h.(writePointer := h.writePointer + n / SECTOR_SIZE)
    case Commanded(Reset) => h.(writePointer := h.start)
    case Commanded(Finish) => h.(writePointer := h.start + h.len)
    case _ => h
  }

  lemma WroteValid(s: DeviceState, h: HandleState, buf: seq<byte>, n: nat)
    requires ValidPair(s, h) && Enabled(s, h, Wrote(buf, n))
    ensures ValidState(DevAfter(s, h, Wrote(buf, n)))
    ensures SameLayout(DevAfter(s, h, Wrote(buf, n)).zones, s.zones) && SameConstants(DevAfter(s, h, Wrote(buf, n)), s)
    ensures h.writePointer + n / SECTOR_SIZE <= End(s.zones)
  {
    WriteInside(s, h.writePointer, n);
    WriteValid(s, h.writePointer, buf[..n]);
  }

  lemma CommandedValid(s: DeviceState, h: HandleState, c: ZoneCommand)
    requires ValidPair(s, h)
    ensures ValidState(DevAfter(s, h, Commanded(c)))
    ensures SameLayout(DevAfter(s, h, Commanded(c)).zones, s.zones) && SameConstants(DevAfter(s, h, Commanded(c)), s)
    ensures h.start + h.len <= End(s.zones)
  {
    CommandValid(s, c, h.index);
    ZoneInside(s, h.index);
  }

  lemma EventValid(s: DeviceState, h: HandleState, e: HandleEvent)
    requires ValidPair(s, h) && Enabled(s, h, e)
    ensures ValidPair(DevAfter(s, h, e), HandleAfter(h, e))
    ensures SameLayout(DevAfter(s, h, e).zones, s.zones) && SameConstants(DevAfter(s, h, e), s)
  {
    match e
    case Wrote(buf, n) => WroteValid(s, h, buf, n);
    case Commanded(c) => CommandedValid(s, h, c);
    case Failed =>
    SameIndex(DevAfter(s, h, e).zones, s.zones, 0);
    assert SameShape(DevAfter(s, h, e).zones[h.index], s.zones[h.index]);
  }

  // ---------- agreement of the pointers ----------

  /** A write keeps the pointers in step exactly when it accepts whole sectors; nothing else breaks it. */
  lemma EventKeepsStep(s: DeviceState, h: HandleState, e: HandleEvent)
    requires ValidPair(s, h) && InStep(s, h) && Enabled(s, h, e)
    ensures e.Wrote? ==> (InStep(DevAfter(s, h, e), HandleAfter(h, e)) <==> e.n % SECTOR_SIZE == 0)
    ensures !e.Wrote? ==> InStep(DevAfter(s, h, e), HandleAfter(h, e))
  {
    var z := s.zones[h.index];
    assert ValidAt(s.zones, h.index);
    match e
    case Wrote(buf, n) =>
      IndexUnique(s.zones, h.writePointer, h.index);
      WrittenStep(z, n);
    case Commanded(c) =>
      ZoneInside(s, h.index);
    case Failed =>
  }

  lemma WrittenStep(z: Zone, n: nat)
    requires z.Valid() && z.Active()
    requires SECTOR_SIZE * z.writePointer.value + n <= SECTOR_SIZE * z.CapacityEnd()
    ensures Written(z, n).HasWritePointer()
    ensures Agrees(Written(z, n), z.writePointer.value + n / SECTOR_SIZE) <==> n % SECTOR_SIZE == 0
  {
    var q := n / SECTOR_SIZE;
    assert n % SECTOR_SIZE == 0 ==> SectorsTouched(n) == q;
    assert n % SECTOR_SIZE != 0 ==> SectorsTouched(n) == q + 1 && z.writePointer.value + q < z.CapacityEnd();
  }

  // ---------- what a caller can tell before a write ----------

  /** The handle's zone is one that can take a write at the handle's pointer. */
  ghost predicate TakesWrites(s: DeviceState, h: HandleState) {
    && h.index < |s.zones| && h.writePointer < h.CapacityEnd()
    && var z := s.zones[h.index];
       if z.zoneType.Conventional? then z.condition.NotWritePointer? else z.Active() && z.writePointer == Some(h.writePointer)
  }

  /** Which counts a write can end with, seen from its zone: any whole-sector or, for a buffer that is not
      whole sectors, any other count that fits. */
  lemma EnabledCounts(s: DeviceState, h: HandleState, buf: seq<byte>, n: nat)
    requires ValidPair(s, h)
    ensures Enabled(s, h, Wrote(buf, n)) <==>
              && TakesWrites(s, h) && n <= |buf| && (|buf| % SECTOR_SIZE == 0 ==> n % SECTOR_SIZE == 0)
              && SECTOR_SIZE * h.writePointer + n <=
                 SECTOR_SIZE * if s.zones[h.index].zoneType.Conventional? then ConventionalEnd(s.zones, h.index) else h.CapacityEnd()
  {
    assert ValidAt(s.zones, h.index);
    if h.writePointer < h.CapacityEnd() {
      IndexUnique(s.zones, h.writePointer, h.index);
    }
  }

  /** One byte can always be taken, if any write can and the buffer is not whole sectors. */
  lemma OneByteEnabled(s: DeviceState, h: HandleState, buf: seq<byte>)
    requires ValidPair(s, h) && TakesWrites(s, h) && |buf| % SECTOR_SIZE != 0
    ensures Enabled(s, h, Wrote(buf, 1))
  {
    EnabledCounts(s, h, buf, 1);
    assert ValidAt(s.zones, h.index);
    ConventionalEndInside(s.zones, h.index);
  }

  /** A write is sure to be accepted in whole sectors exactly when the buffer is whole sectors, or the zone
      takes no write at all. */
  lemma WholeBuffersExactly(s: DeviceState, h: HandleState, buf: seq<byte>)
    requires ValidPair(s, h)
    ensures (forall n: nat :: Enabled(s, h, Wrote(buf, n)) ==> n % SECTOR_SIZE == 0)
            <==> |buf| % SECTOR_SIZE == 0 || !TakesWrites(s, h)
  {
    forall n: nat | Enabled(s, h, Wrote(buf, n))
      ensures TakesWrites(s, h) && (|buf| % SECTOR_SIZE == 0 ==> n % SECTOR_SIZE == 0)
    {
      EnabledCounts(s, h, buf, n);
    }
    if |buf| % SECTOR_SIZE != 0 && TakesWrites(s, h) {
      OneByteEnabled(s, h, buf);
    }
  }

  /** A write from a handle in step is sure to keep it in step exactly when the buffer is whole sectors, or
      the handle stands at the capacity, where no write is made. */
  lemma StepKeptExactly(s: DeviceState, h: HandleState, buf: seq<byte>)
    requires ValidPair(s, h) && InStep(s, h)
    ensures (forall n: nat :: Enabled(s, h, Wrote(buf, n)) ==> InStep(DevAfter(s, h, Wrote(buf, n)), HandleAfter(h, Wrote(buf, n))))
            <==> |buf| % SECTOR_SIZE == 0 || h.writePointer >= h.CapacityEnd()
  {
    assert ValidAt(s.zones, h.index);
    WholeBuffersExactly(s, h, buf);
    hide DevAfter, HandleAfter, Enabled, ValidPair;
    forall n: nat | Enabled(s, h, Wrote(buf, n))
      ensures InStep(DevAfter(s, h, Wrote(buf, n)), HandleAfter(h, Wrote(buf, n))) <==> n % SECTOR_SIZE == 0
    {
      EventKeepsStep(s, h, Wrote(buf, n));
    }
  }

  // ---------- the zone as an append-only log ----------

  /** Device bytes from the zone's start to the handle's pointer. */
  ghost function LogBytes(s: DeviceState, h: HandleState): seq<byte>
    requires ValidPair(s, h)
  {
    s.data[SECTOR_SIZE * h.start..SECTOR_SIZE * h.writePointer]
  }

  /** Bytes accepted since the last reset, given those accepted before the event. */
  function LogAfter(log: seq<byte>, e: HandleEvent): seq<byte> {
    match e
    case Wrote(buf, n) => if n <= |buf| then log + buf[..n] else log
    case Commanded(Reset) => []
    case _ => log
  }

  predicate WholeSectors(e: HandleEvent) {
    e.Wrote? ==> e.n % SECTOR_SIZE == 0
  }

  lemma EventLog(s: DeviceState, h: HandleState, e: HandleEvent)
    requires ValidPair(s, h) && Enabled(s, h, e) && WholeSectors(e) && e != Commanded(Finish)
    ensures ValidPair(DevAfter(s, h, e), HandleAfter(h, e))
    ensures LogBytes(DevAfter(s, h, e), HandleAfter(h, e)) == LogAfter(LogBytes(s, h), e)
  {
    if e.Wrote? {
      WroteGrowsLog(s, h, e.buf, e.n, DevAfter(s, h, e));
    } else if e.Commanded? {
      CommandLog(s, h, e.c);
    }
  }

  lemma CommandLog(s: DeviceState, h: HandleState, c: ZoneCommand)
    requires ValidPair(s, h) && !c.Finish?
    ensures ValidPair(DevAfter(s, h, Commanded(c)), HandleAfter(h, Commanded(c)))
    ensures LogBytes(DevAfter(s, h, Commanded(c)), HandleAfter(h, Commanded(c))) == if c.Reset? then [] else LogBytes(s, h)
  {
    EventValid(s, h, Commanded(c));
  }

  lemma WroteGrowsLog(s: DeviceState, h: HandleState, buf: seq<byte>, n: nat, t: DeviceState)
    requires ValidPair(s, h) && Enabled(s, h, Wrote(buf, n))
    requires n % SECTOR_SIZE == 0 && t == DevAfter(s, h, Wrote(buf, n))
    ensures ValidPair(t, HandleAfter(h, Wrote(buf, n))) && n <= |buf|
    ensures LogBytes(t, HandleAfter(h, Wrote(buf, n))) == LogBytes(s, h) + buf[..n]
  {
    EventValid(s, h, Wrote(buf, n));
    WriteInside(s, h.writePointer, n);
    assert t.data == Splice(s.data, SECTOR_SIZE * h.writePointer, buf[..n]);
    hide DevAfter, Enabled, ValidState;
    SpliceTail(s.data, SECTOR_SIZE * h.start, SECTOR_SIZE * h.writePointer, buf[..n]);
    assert SECTOR_SIZE * (n / SECTOR_SIZE) == n;
  }

  /** The log needs whole sectors: after a write that stops inside one, the bytes up to the pointer are
      not those accepted, as the pointer stands before the last of them. */
  lemma TornWriteBreaksLog(s: DeviceState, h: HandleState, buf: seq<byte>, n: nat)
    requires ValidPair(s, h) && Enabled(s, h, Wrote(buf, n))
    ensures ValidPair(DevAfter(s, h, Wrote(buf, n)), HandleAfter(h, Wrote(buf, n)))
    ensures LogBytes(DevAfter(s, h, Wrote(buf, n)), HandleAfter(h, Wrote(buf, n))) == LogAfter(LogBytes(s, h), Wrote(buf, n))
            <==> n % SECTOR_SIZE == 0
  {
    EventValid(s, h, Wrote(buf, n));
    if n % SECTOR_SIZE == 0 {
      EventLog(s, h, Wrote(buf, n));
    } else {
      assert |LogBytes(DevAfter(s, h, Wrote(buf, n)), HandleAfter(h, Wrote(buf, n)))| == |LogBytes(s, h)| + SECTOR_SIZE * (n / SECTOR_SIZE);
    }
  }

  // ---------- runs ----------

  /** Device and handle after a run of events. */
  ghost function Exec(s: DeviceState, h: HandleState, es: seq<HandleEvent>): Pair {
    if es == [] then (s, h) else
      var (t, g) := Exec(s, h, es[..|es| - 1]);
      (DevAfter(t, g, es[|es| - 1]), HandleAfter(g, es[|es| - 1]))
  }

  /** Every event of the run is possible where it happens. */
  ghost predicate Run(s: DeviceState, h: HandleState, es: seq<HandleEvent>) {
    es == [] ||
    (&& Run(s, h, es[..|es| - 1])
     && var (t, g) := Exec(s, h, es[..|es| - 1]);
        ValidState(t) && Enabled(t, g, es[|es| - 1]))
  }

  lemma RunSnoc(s: DeviceState, h: HandleState, es: seq<HandleEvent>, e: HandleEvent)
    ensures Exec(s, h, es + [e]) == (DevAfter(Exec(s, h, es).0, Exec(s, h, es).1, e), HandleAfter(Exec(s, h, es).1, e))
    ensures Run(s, h, es + [e]) <==>
              Run(s, h, es) && ValidState(Exec(s, h, es).0) && Enabled(Exec(s, h, es).0, Exec(s, h, es).1, e)
  {
    assert (es + [e])[..|es + [e]| - 1] == es;
  }

  predicate AllWholeSectors(es: seq<HandleEvent>) {
    forall i :: 0 <= i < |es| ==> WholeSectors(es[i])
  }

  predicate NoFinish(es: seq<HandleEvent>) {
    forall i :: 0 <= i < |es| ==> es[i] != Commanded(Finish)
  }

  function LogRun(log: seq<byte>, es: seq<HandleEvent>): seq<byte> {
    if es == [] then log else LogAfter(LogRun(log, es[..|es| - 1]), es[|es| - 1])
  }

  lemma {:induction false} RunValid(s: DeviceState, h: HandleState, es: seq<HandleEvent>)
    requires ValidPair(s, h) && Run(s, h, es)
    ensures ValidPair(Exec(s, h, es).0, Exec(s, h, es).1)
    ensures Exec(s, h, es).1.(writePointer := h.writePointer) == h
  {
    if es == [] {
    } else {
      var before := es[..|es| - 1];
      RunValid(s, h, before);
      EventValid(Exec(s, h, before).0, Exec(s, h, before).1, es[|es| - 1]);
    }
  }

  /** Since the last reset, writes were accepted in whole sectors, and the zone was not finished. */
  predicate CleanSinceReset(es: seq<HandleEvent>) {
    es == [] ||
    es[|es| - 1] == Commanded(Reset) ||
    (WholeSectors(es[|es| - 1]) && es[|es| - 1] != Commanded(Finish) && CleanSinceReset(es[..|es| - 1]))
  }

  lemma {:induction false} WholeIsClean(es: seq<HandleEvent>)
    requires AllWholeSectors(es) && NoFinish(es)
    ensures CleanSinceReset(es)
  {
    if es == [] {
    } else {
      WholeIsClean(es[..|es| - 1]);
    }
  }

  /** The zone is an append-only log: after any run of writes, gathered writes, commands and failures that
      has been clean since the last reset, the bytes from the zone's start to the pointer are the
      concatenation of all bytes accepted since that reset. */
  lemma {:induction false} AppendOnlyLog(s: DeviceState, h: HandleState, es: seq<HandleEvent>)
    requires ValidPair(s, h) && Run(s, h, es) && CleanSinceReset(es)
    ensures ValidPair(Exec(s, h, es).0, Exec(s, h, es).1)
    ensures LogBytes(Exec(s, h, es).0, Exec(s, h, es).1) == LogRun(LogBytes(s, h), es)
  {
    hide DevAfter, HandleAfter, Enabled, LogAfter, ValidPair, LogBytes;
    if es == [] {
    } else {
      var before, e := es[..|es| - 1], es[|es| - 1];
      var (t, g) := Exec(s, h, before);
      RunValid(s, h, before);
      if e == Commanded(Reset) {
        ResetLog(t, g, LogRun(LogBytes(s, h), before));
      } else {
        AppendOnlyLog(s, h, before);
        EventLog(t, g, e);
      }
    }
  }

  lemma ResetLog(s: DeviceState, h: HandleState, log: seq<byte>)
    requires ValidPair(s, h)
    ensures ValidPair(DevAfter(s, h, Commanded(Reset)), HandleAfter(h, Commanded(Reset)))
    ensures LogBytes(DevAfter(s, h, Commanded(Reset)), HandleAfter(h, Commanded(Reset))) == LogAfter(log, Commanded(Reset))
  {
    CommandLog(s, h, Reset);
  }

  lemma {:induction false} RunKeepsStep(s: DeviceState, h: HandleState, es: seq<HandleEvent>)
    requires ValidPair(s, h) && InStep(s, h) && Run(s, h, es) && AllWholeSectors(es)
    ensures InStep(Exec(s, h, es).0, Exec(s, h, es).1)
  {
    if es == [] {
    } else {
      var before := es[..|es| - 1];
      RunKeepsStep(s, h, before);
      RunValid(s, h, before);
      EventKeepsStep(Exec(s, h, before).0, Exec(s, h, before).1, es[|es| - 1]);
    }
  }

  /** A sequential zone with a meaningful pointer keeps having one. */
  lemma EventKeepsPointer(s: DeviceState, h: HandleState, e: HandleEvent)
    requires ValidPair(s, h) && s.zones[h.index].HasWritePointer() && Enabled(s, h, e)
    ensures h.index < |DevAfter(s, h, e).zones| && DevAfter(s, h, e).zones[h.index].HasWritePointer()
  {
    EventValid(s, h, e);
    assert ValidAt(s.zones, h.index);
    if e.Wrote? {
      EnabledCounts(s, h, e.buf, e.n);
      IndexUnique(s.zones, h.writePointer, h.index);
    }
  }

  /** A reset sets both pointers to the zone's start. */
  lemma ResetBringsInStep(s: DeviceState, h: HandleState)
    requires ValidPair(s, h) && s.zones[h.index].HasWritePointer()
    ensures InStep(DevAfter(s, h, Commanded(Reset)), HandleAfter(h, Commanded(Reset)))
  {
    ZoneInside(s, h.index);
    assert ValidAt(s.zones, h.index);
  }

  lemma {:induction false} CleanRunInStep(s: DeviceState, h: HandleState, es: seq<HandleEvent>)
    requires ValidPair(s, h) && InStep(s, h) && Run(s, h, es)
    ensures h.index < |Exec(s, h, es).0.zones| && Exec(s, h, es).0.zones[h.index].HasWritePointer()
    ensures CleanSinceReset(es) ==> InStep(Exec(s, h, es).0, Exec(s, h, es).1)
  {
    if es == [] {
    } else {
      var before, e := es[..|es| - 1], es[|es| - 1];
      var (t, g) := Exec(s, h, before);
      RunValid(s, h, before);
      CleanRunInStep(s, h, before);
      LastInStep(t, g, e);
    }
  }

  lemma LastInStep(s: DeviceState, h: HandleState, e: HandleEvent)
    requires ValidPair(s, h) && s.zones[h.index].HasWritePointer() && Enabled(s, h, e)
    ensures h.index < |DevAfter(s, h, e).zones| && DevAfter(s, h, e).zones[h.index].HasWritePointer()
    ensures e == Commanded(Reset) || (InStep(s, h) && WholeSectors(e)) ==> InStep(DevAfter(s, h, e), HandleAfter(h, e))
  {
    EventKeepsPointer(s, h, e);
    if e == Commanded(Reset) {
      ResetBringsInStep(s, h);
    } else if InStep(s, h) {
      EventKeepsStep(s, h, e);
    }
  }

  // ---------- runs of whole buffers ----------

  /** Every buffer offered is whole sectors. */
  predicate WholeBuffers(es: seq<HandleEvent>) {
    forall i :: 0 <= i < |es| ==> es[i].Wrote? ==> |es[i].buf| % SECTOR_SIZE == 0
  }

  lemma {:induction false} WholeBuffersAreWholeSectors(s: DeviceState, h: HandleState, es: seq<HandleEvent>)
    requires Run(s, h, es) && WholeBuffers(es)
    ensures AllWholeSectors(es)
  {
    hide Enabled, DevAfter, HandleAfter, ValidState, WholeSectors;
    if es == [] {
    } else {
      var before := es[..|es| - 1];
      WholeBuffersAreWholeSectors(s, h, before);
      WholeBufferIsWhole(Exec(s, h, before).0, Exec(s, h, before).1, es[|es| - 1]);
    }
  }

  lemma WholeBufferIsWhole(s: DeviceState, h: HandleState, e: HandleEvent)
    requires ValidState(s) && Enabled(s, h, e) && (e.Wrote? ==> |e.buf| % SECTOR_SIZE == 0)
    ensures WholeSectors(e)
  {
    hide ValidState, IndexOf;
  }

  /** Since the last reset, every buffer offered was whole sectors, and the zone was not finished. */
  predicate OfferedClean(es: seq<HandleEvent>) {
    es == [] ||
    es[|es| - 1] == Commanded(Reset) ||
    (&& (es[|es| - 1].Wrote? ==> |es[|es| - 1].buf| % SECTOR_SIZE == 0)
     && es[|es| - 1] != Commanded(Finish)
     && OfferedClean(es[..|es| - 1]))
  }

  lemma {:induction false} OfferedCleanIsClean(s: DeviceState, h: HandleState, es: seq<HandleEvent>)
    requires Run(s, h, es) && OfferedClean(es)
    ensures CleanSinceReset(es)
  {
    hide Enabled, DevAfter, HandleAfter, ValidState, WholeSectors;
    if es == [] {
    } else if es[|es| - 1] != Commanded(Reset) {
      var before := es[..|es| - 1];
      OfferedCleanIsClean(s, h, before);
      WholeBufferIsWhole(Exec(s, h, before).0, Exec(s, h, before).1, es[|es| - 1]);
    }
  }

  /** The append-only log for a caller who offers whole sectors, whatever the device takes of them. */
  lemma WholeBuffersKeepLog(s: DeviceState, h: HandleState, es: seq<HandleEvent>)
    requires ValidPair(s, h) && Run(s, h, es) && OfferedClean(es)
    ensures ValidPair(Exec(s, h, es).0, Exec(s, h, es).1)
    ensures LogBytes(Exec(s, h, es).0, Exec(s, h, es).1) == LogRun(LogBytes(s, h), es)
  {
    OfferedCleanIsClean(s, h, es);
    AppendOnlyLog(s, h, es);
  }

  /** Agreement of the pointers for such a caller. */
  lemma WholeBuffersKeepStep(s: DeviceState, h: HandleState, es: seq<HandleEvent>)
    requires ValidPair(s, h) && InStep(s, h) && Run(s, h, es) && WholeBuffers(es)
    ensures InStep(Exec(s, h, es).0, Exec(s, h, es).1)
  {
    WholeBuffersAreWholeSectors(s, h, es);
    RunKeepsStep(s, h, es);
  }

  /** Capacity is conserved: while the zone is not full, what the device reports as remaining and the
      whole sectors accepted since the last reset add up to the capacity, with no underflow. */
  lemma CapacityConserved(s: DeviceState, h: HandleState, es: seq<HandleEvent>)
    requires ValidPair(s, h) && InStep(s, h) && Run(s, h, es) && CleanSinceReset(es)
    ensures var (t, g) := Exec(s, h, es);
            && g.index < |t.zones|
            && (!t.zones[g.index].condition.Full? ==>
                  && t.zones[g.index].RemainingCapacity().Some?
                  && SECTOR_SIZE * t.zones[g.index].RemainingCapacity().value + |LogRun(LogBytes(s, h), es)| == SECTOR_SIZE * h.capacity)
  {
    AppendOnlyLog(s, h, es);
    CleanRunInStep(s, h, es);
    RunValid(s, h, es);
    var (t, g) := Exec(s, h, es);
    hide Run, Exec, LogRun, CleanSinceReset;
    assert ValidAt(t.zones, g.index);
  }

  // ---------- write_all_sequential ----------

  /** Positions in a buffer: 0, and where each call of the loop stopped. */
  ghost predicate Cuts(buf: seq<byte>, cuts: seq<nat>) {
    && |cuts| > 0 && cuts[0] == 0
    && forall k: nat :: CutAt(buf, cuts, k)
  }

  ghost predicate CutAt(buf: seq<byte>, cuts: seq<nat>, k: nat) {
    k < |cuts| ==> cuts[k] <= |buf| && (k > 0 ==> cuts[k - 1] < cuts[k])
  }

  function Last(cuts: seq<nat>): nat
    requires |cuts| > 0
  {
    cuts[|cuts| - 1]
  }

  /** The writes of the loop: each offers the rest of the buffer and is accepted up to the next cut. */
  function Pieces(buf: seq<byte>, cuts: seq<nat>): (es: seq<HandleEvent>)
    requires |cuts| > 0
    ensures |es| == |cuts| - 1
  {
    seq(|cuts| - 1, k requires 0 <= k < |cuts| - 1 => Piece(buf, cuts[k], cuts[k + 1]))
  }

  function Piece(buf: seq<byte>, from: nat, to: nat): HandleEvent {
    Wrote(if from <= |buf| then buf[from..] else [], if from <= to then to - from else 0)
  }

  /** The loop is under way: its calls so far stopped at `cuts` and led to `now`. */
  ghost predicate Writing(s: DeviceState, h: HandleState, buf: seq<byte>, cuts: seq<nat>, now: Pair) {
    && Cuts(buf, cuts)
    && Run(s, h, Pieces(buf, cuts))
    && now == Exec(s, h, Pieces(buf, cuts))
  }

  /** One execution of the loop, whose calls stopped at `cuts`, and its result. */
  ghost predicate WriteAll(s: DeviceState, h: HandleState, buf: seq<byte>, cuts: seq<nat>, r: Result<()>) {
    && Cuts(buf, cuts)
    && Run(s, h, Pieces(buf, cuts))
    && Stops(Exec(s, h, Pieces(buf, cuts)), Rest(buf, cuts), r)
  }

  /** What the loop has not written yet. */
  function Rest(buf: seq<byte>, cuts: seq<nat>): seq<byte>
    requires |cuts| > 0
  {
    if Last(cuts) <= |buf| then buf[Last(cuts)..] else []
  }

  /** How the loop can end with `rest` still to be written: at the capacity only with `ZoneFull`. */
  ghost predicate Stops(now: Pair, rest: seq<byte>, r: Result<()>) {
    match r
    case Ok(_) => rest == []
    case Err(e) =>
      && rest != []
      && if now.1.writePointer >= now.1.CapacityEnd() then e == ZoneFull(now.1.index)
         else e.FromDevice() || (e == ZoneFull(now.1.index) && Stalls(now, rest))
  }

  /** The device accepts the write but takes no byte of it. */
  ghost predicate Stalls(now: Pair, rest: seq<byte>) {
    ValidState(now.0) && Enabled(now.0, now.1, Wrote(rest, 0))
  }

  lemma PieceAppended(s: DeviceState, h: HandleState, buf: seq<byte>, cuts: seq<nat>, n: nat)
    requires Cuts(buf, cuts) && Run(s, h, Pieces(buf, cuts)) && 0 < n <= |Rest(buf, cuts)|
    requires var (t, g) := Exec(s, h, Pieces(buf, cuts));
             ValidState(t) && Enabled(t, g, Wrote(Rest(buf, cuts), n))
    ensures Cuts(buf, cuts + [Last(cuts) + n]) && Run(s, h, Pieces(buf, cuts + [Last(cuts) + n]))
    ensures var (t, g) := Exec(s, h, Pieces(buf, cuts));
            Exec(s, h, Pieces(buf, cuts + [Last(cuts) + n])) ==
            (DevAfter(t, g, Wrote(Rest(buf, cuts), n)), HandleAfter(g, Wrote(Rest(buf, cuts), n)))
  {
    CutsAppended(buf, cuts, n);
    RunSnoc(s, h, Pieces(buf, cuts), Wrote(Rest(buf, cuts), n));
  }

  lemma WritingMore(s: DeviceState, h: HandleState, buf: seq<byte>, cuts: seq<nat>, now: Pair,
                    rest: seq<byte>, n: nat, after: Pair, more: seq<nat>)
    requires Writing(s, h, buf, cuts, now) && ValidState(now.0) && rest == Rest(buf, cuts)
    requires 0 < n <= |rest| && Enabled(now.0, now.1, Wrote(rest, n))
    requires after == (DevAfter(now.0, now.1, Wrote(rest, n)), HandleAfter(now.1, Wrote(rest, n)))
    requires more == cuts + [Last(cuts) + n]
    ensures Writing(s, h, buf, more, after) && Rest(buf, more) == rest[n..]
  {
    PieceAppended(s, h, buf, cuts, n);
  }

  lemma CutsAppended(buf: seq<byte>, cuts: seq<nat>, n: nat)
    requires Cuts(buf, cuts) && 0 < n <= |Rest(buf, cuts)|
    ensures Cuts(buf, cuts + [Last(cuts) + n])
    ensures Pieces(buf, cuts + [Last(cuts) + n]) == Pieces(buf, cuts) + [Wrote(Rest(buf, cuts), n)]
  {
    var more := cuts + [Last(cuts) + n];
    forall k: nat
      ensures CutAt(buf, more, k)
    {
      assert CutAt(buf, cuts, k) && CutAt(buf, cuts, |cuts| - 1);
    }
    assert Pieces(buf, more) == Pieces(buf, cuts) + [Wrote(Rest(buf, cuts), n)];
  }

  lemma PiecesSnoc(buf: seq<byte>, cuts: seq<nat>)
    requires Cuts(buf, cuts) && |cuts| > 1
    ensures Cuts(buf, cuts[..|cuts| - 1]) && cuts[|cuts| - 2] < Last(cuts) <= |buf|
    ensures Pieces(buf, cuts) == Pieces(buf, cuts[..|cuts| - 1]) + [Piece(buf, cuts[|cuts| - 2], Last(cuts))]
  {
    hide Piece;
    var before := cuts[..|cuts| - 1];
    forall k: nat
      ensures CutAt(buf, before, k)
    {
      assert CutAt(buf, cuts, k);
    }
    assert CutAt(buf, cuts, |cuts| - 1);
    assert Pieces(buf, cuts) == Pieces(buf, before) + [Piece(buf, cuts[|cuts| - 2], Last(cuts))];
  }

  /** For a buffer of whole sectors every call stops at a sector boundary, and the pointer has moved
      over the bytes accepted. */
  lemma {:induction false} PiecesAreWhole(s: DeviceState, h: HandleState, buf: seq<byte>, cuts: seq<nat>)
    requires Cuts(buf, cuts) && Run(s, h, Pieces(buf, cuts)) && |buf| % SECTOR_SIZE == 0
    ensures Last(cuts) % SECTOR_SIZE == 0 && Last(cuts) <= |buf|
    ensures AllWholeSectors(Pieces(buf, cuts)) && NoFinish(Pieces(buf, cuts))
    ensures Exec(s, h, Pieces(buf, cuts)).1 == h.(writePointer := h.writePointer + Last(cuts) / SECTOR_SIZE)
    decreases |cuts|
  {
    if |cuts| == 1 {
    } else {
      PiecesSnoc(buf, cuts);
      RunSnoc(s, h, Pieces(buf, cuts[..|cuts| - 1]), Piece(buf, cuts[|cuts| - 2], Last(cuts)));
      PiecesAreWhole(s, h, buf, cuts[..|cuts| - 1]);
      LastPieceIsWhole(s, h, buf, cuts, cuts[..|cuts| - 1]);
    }
  }

  lemma LastPieceIsWhole(s: DeviceState, h: HandleState, buf: seq<byte>, cuts: seq<nat>, before: seq<nat>)
    requires Cuts(buf, cuts) && Run(s, h, Pieces(buf, cuts)) && |buf| % SECTOR_SIZE == 0
    requires |cuts| > 1 && before == cuts[..|cuts| - 1]
    requires Last(before) % SECTOR_SIZE == 0 && AllWholeSectors(Pieces(buf, before)) && NoFinish(Pieces(buf, before))
    requires Exec(s, h, Pieces(buf, before)).1 == h.(writePointer := h.writePointer + Last(before) / SECTOR_SIZE)
    ensures Last(cuts) % SECTOR_SIZE == 0 && Last(cuts) <= |buf|
    ensures AllWholeSectors(Pieces(buf, cuts)) && NoFinish(Pieces(buf, cuts))
    ensures Exec(s, h, Pieces(buf, cuts)).1 == h.(writePointer := h.writePointer + Last(cuts) / SECTOR_SIZE)
  {
    hide DevAfter, Enabled, Run, Exec, ValidState;
    var es, last, t := Pieces(buf, before), Piece(buf, Last(before), Last(cuts)), Exec(s, h, Pieces(buf, before));
    PiecesSnoc(buf, cuts);
    RunSnoc(s, h, es, last);
    PieceIsWhole(t.0, t.1, buf, Last(before), Last(cuts));
  }

  lemma PieceIsWhole(s: DeviceState, h: HandleState, buf: seq<byte>, from: nat, to: nat)
    requires ValidState(s) && from <= to <= |buf| && Enabled(s, h, Piece(buf, from, to))
    requires |buf| % SECTOR_SIZE == 0 && from % SECTOR_SIZE == 0
    ensures to % SECTOR_SIZE == 0 && WholeSectors(Piece(buf, from, to))
    ensures from / SECTOR_SIZE + (to - from) / SECTOR_SIZE == to / SECTOR_SIZE
  {
    hide ValidState, IndexOf;
    assert (|buf| - from) % SECTOR_SIZE == 0;
  }

  lemma LogRunSnoc(log: seq<byte>, es: seq<HandleEvent>, e: HandleEvent)
    ensures LogRun(log, es + [e]) == LogAfter(LogRun(log, es), e)
  {
    assert (es + [e])[..|es + [e]| - 1] == es;
  }

  lemma PieceLog(log: seq<byte>, buf: seq<byte>, from: nat, to: nat)
    requires from <= to <= |buf|
    ensures LogAfter(log + buf[..from], Piece(buf, from, to)) == log + buf[..to]
  {
    assert buf[from..][..to - from] == buf[from..to];
    assert (log + buf[..from]) + buf[from..to] == log + buf[..to];
  }

  /** The log of the pieces is the accepted prefix of the buffer. */
  lemma {:induction false} PiecesLog(buf: seq<byte>, cuts: seq<nat>, log: seq<byte>)
    requires Cuts(buf, cuts)
    ensures Last(cuts) <= |buf| && LogRun(log, Pieces(buf, cuts)) == log + buf[..Last(cuts)]
    decreases |cuts|
  {
    if |cuts| == 1 {
      assert CutAt(buf, cuts, 0);
      assert Pieces(buf, cuts) == [];
      assert log + buf[..0] == log;
    } else {
      PiecesSnoc(buf, cuts);
      PiecesLog(buf, cuts[..|cuts| - 1], log);
      LastPieceLog(buf, cuts, cuts[..|cuts| - 1], cuts[|cuts| - 2], log);
    }
  }

  lemma LastPieceLog(buf: seq<byte>, cuts: seq<nat>, before: seq<nat>, from: nat, log: seq<byte>)
    requires |cuts| > 0 && |before| > 0 && from <= Last(cuts) <= |buf|
    requires Pieces(buf, cuts) == Pieces(buf, before) + [Piece(buf, from, Last(cuts))]
    requires LogRun(log, Pieces(buf, before)) == log + buf[..from]
    ensures LogRun(log, Pieces(buf, cuts)) == log + buf[..Last(cuts)]
  {
    hide LogRun, Pieces, Piece, LogAfter;
    LogRunSnoc(log, Pieces(buf, before), Piece(buf, from, Last(cuts)));
    PieceLog(log, buf, from, Last(cuts));
  }

  /** What `write_all_sequential` leaves behind for a buffer of whole sectors: an accepted
      whole-sector prefix, all of the buffer on success, lies at the old pointer, the pointer is
      past exactly that prefix, and the log grew by it. */
  lemma WriteAllOutcome(s: DeviceState, h: HandleState, buf: seq<byte>, cuts: seq<nat>, r: Result<()>)
    requires ValidPair(s, h) && |buf| % SECTOR_SIZE == 0 && WriteAll(s, h, buf, cuts, r)
    ensures Last(cuts) % SECTOR_SIZE == 0 && Last(cuts) <= |buf| && (r.Ok? <==> Last(cuts) == |buf|)
    ensures Appended(s, h, Exec(s, h, Pieces(buf, cuts)), buf[..Last(cuts)])
    ensures InStep(s, h) ==> InStep(Exec(s, h, Pieces(buf, cuts)).0, Exec(s, h, Pieces(buf, cuts)).1)
  {
    var es := Pieces(buf, cuts);
    PiecesAreWhole(s, h, buf, cuts);
    PiecesLog(buf, cuts, LogBytes(s, h));
    WholeIsClean(es);
    AppendOnlyLog(s, h, es);
    if InStep(s, h) {
      RunKeepsStep(s, h, es);
    }
    LogGrew(s, h, Exec(s, h, es), buf[..Last(cuts)]);
  }

  /** `bytes`, whole sectors, were appended to the zone at the handle's pointer. */
  ghost predicate Appended(s: DeviceState, h: HandleState, now: Pair, bytes: seq<byte>)
    requires ValidPair(s, h)
  {
    && ValidPair(now.0, now.1)
    && now.1 == h.(writePointer := h.writePointer + |bytes| / SECTOR_SIZE)
    && LogBytes(now.0, now.1) == LogBytes(s, h) + bytes
    && SECTOR_SIZE * h.writePointer + |bytes| <= |now.0.data|
    && now.0.data[SECTOR_SIZE * h.writePointer..SECTOR_SIZE * h.writePointer + |bytes|] == bytes
  }

  lemma LogGrew(s: DeviceState, h: HandleState, now: Pair, bytes: seq<byte>)
    requires ValidPair(s, h) && ValidPair(now.0, now.1)
    requires |bytes| % SECTOR_SIZE == 0 && now.1 == h.(writePointer := h.writePointer + |bytes| / SECTOR_SIZE)
    requires LogBytes(now.0, now.1) == LogBytes(s, h) + bytes
    ensures Appended(s, h, now, bytes)
  {
    var k := |LogBytes(s, h)|;
    assert LogBytes(now.0, now.1)[k..] == bytes;
    assert LogBytes(now.0, now.1)[k..] == now.0.data[SECTOR_SIZE * h.writePointer..SECTOR_SIZE * now.1.writePointer];
  }

  /** A handle in step never writes past the capacity. */
  lemma {:induction false} RunBounded(s: DeviceState, h: HandleState, es: seq<HandleEvent>)
    requires ValidPair(s, h) && InStep(s, h) && Run(s, h, es) && AllWholeSectors(es) && NoFinish(es)
    requires h.writePointer <= h.CapacityEnd()
    ensures Exec(s, h, es).1.writePointer <= h.CapacityEnd()
  {
    if es == [] {
    } else {
      var before := es[..|es| - 1];
      RunBounded(s, h, before);
      RunValid(s, h, before);
      RunKeepsStep(s, h, before);
      EventBounded(Exec(s, h, before).0, Exec(s, h, before).1, es[|es| - 1]);
    }
  }

  lemma EventBounded(s: DeviceState, h: HandleState, e: HandleEvent)
    requires ValidPair(s, h) && InStep(s, h) && Enabled(s, h, e) && WholeSectors(e) && e != Commanded(Finish)
    requires h.writePointer <= h.CapacityEnd()
    ensures HandleAfter(h, e).writePointer <= h.CapacityEnd()
  {
    assert ValidAt(s.zones, h.index);
    if e.Wrote? {
      IndexUnique(s.zones, h.writePointer, h.index);
    }
  }

  /** A buffer longer than what the zone has left never succeeds: unless the device fails or accepts
      0 bytes, the loop ends in `ZoneFull` with the zone filled exactly to its capacity. */
  lemma WriteAllTooLong(s: DeviceState, h: HandleState, buf: seq<byte>, cuts: seq<nat>, r: Result<()>)
    requires ValidPair(s, h) && InStep(s, h) && |buf| % SECTOR_SIZE == 0 && WriteAll(s, h, buf, cuts, r)
    requires h.writePointer <= h.CapacityEnd() && SECTOR_SIZE * h.writePointer + |buf| > SECTOR_SIZE * h.CapacityEnd()
    ensures r.Err?
    ensures !r.error.FromDevice() && !Stalls(Exec(s, h, Pieces(buf, cuts)), Rest(buf, cuts)) ==>
              var (t, g) := Exec(s, h, Pieces(buf, cuts));
              && r == Err(ZoneFull(h.index))
              && SECTOR_SIZE * h.writePointer + Last(cuts) == SECTOR_SIZE * h.CapacityEnd()
              && g.index < |t.zones| && t.zones[g.index].condition.Full?
  {
    WriteAllOutcome(s, h, buf, cuts, r);
    PiecesAreWhole(s, h, buf, cuts);
    RunBounded(s, h, Pieces(buf, cuts));
    var (t, g) := Exec(s, h, Pieces(buf, cuts));
    assert ValidAt(t.zones, g.index);
  }

  // ---------- write_all_sequential with a buffer of any length ----------

  /** Out of step, a sequential zone accepts no write. */
  lemma OutOfStepRejects(s: DeviceState, h: HandleState, buf: seq<byte>, n: nat)
    requires ValidPair(s, h) && !s.zones[h.index].zoneType.Conventional? && !InStep(s, h)
    ensures !Enabled(s, h, Wrote(buf, n))
  {
    if h.writePointer < h.CapacityEnd() {
      assert ValidAt(s.zones, h.index);
      IndexUnique(s.zones, h.writePointer, h.index);
    }
  }

  /** Progress of the loop in a zone that was in step: the accepted bytes are in place; after whole
      sectors the handle is in step behind them, and otherwise it is out of step. */
  ghost predicate InPlace(h: HandleState, now: Pair, bytes: seq<byte>) {
    && ValidPair(now.0, now.1)
    && now.1 == h.(writePointer := now.1.writePointer)
    && now.0.zones[h.index].HasWritePointer() && !now.0.zones[h.index].zoneType.Conventional?
    && SECTOR_SIZE * h.writePointer + |bytes| <= |now.0.data|
    && now.0.data[SECTOR_SIZE * h.writePointer..SECTOR_SIZE * h.writePointer + |bytes|] == bytes
    && (InStep(now.0, now.1) <==> |bytes| % SECTOR_SIZE == 0)
    && (|bytes| % SECTOR_SIZE == 0 ==> now.1.writePointer == h.writePointer + |bytes| / SECTOR_SIZE)
  }

  /** A write by a handle in step: the zone keeps a meaningful pointer and stays sequential. */
  lemma WroteKeepsPointer(s: DeviceState, g: HandleState, buf: seq<byte>, n: nat)
    requires ValidPair(s, g) && InStep(s, g) && Enabled(s, g, Wrote(buf, n))
    ensures g.index < |DevAfter(s, g, Wrote(buf, n)).zones|
    ensures DevAfter(s, g, Wrote(buf, n)).zones[g.index].HasWritePointer()
    ensures DevAfter(s, g, Wrote(buf, n)).zones[g.index].zoneType == s.zones[g.index].zoneType
  {
    assert ValidAt(s.zones, g.index);
    IndexUnique(s.zones, g.writePointer, g.index);
    WrittenStep(s.zones[g.index], n);
    WriteInside(s, g.writePointer, n);
  }

  /** Bytes written right behind others lie right behind them. */
  lemma WroteBehind(s: DeviceState, g: HandleState, base: nat, buf: seq<byte>, from: nat, to: nat)
    requires ValidState(s) && from < to <= |buf| && Enabled(s, g, Piece(buf, from, to))
    requires SECTOR_SIZE * g.writePointer == base + from
    requires base + from <= |s.data| && s.data[base..base + from] == buf[..from]
    ensures var t := DevAfter(s, g, Piece(buf, from, to));
            base + to <= |t.data| && t.data[base..base + to] == buf[..to]
  {
    WriteInside(s, g.writePointer, to - from);
    assert buf[from..][..to - from] == buf[from..to];
    var t := DevAfter(s, g, Piece(buf, from, to));
    forall k | 0 <= k < to
      ensures t.data[base + k] == buf[k]
    {
      assert k < from ==> s.data[base..base + from][k] == buf[..from][k];
    }
  }

  lemma PieceInPlace(h: HandleState, s: DeviceState, g: HandleState, e: HandleEvent, buf: seq<byte>, from: nat, to: nat)
    requires from < to <= |buf| && InPlace(h, (s, g), buf[..from]) && e == Piece(buf, from, to) && Enabled(s, g, e)
    ensures ValidPair(DevAfter(s, g, e), HandleAfter(g, e)) && from % SECTOR_SIZE == 0
    ensures InPlace(h, (DevAfter(s, g, e), HandleAfter(g, e)), buf[..to])
  {
    hide DevAfter, Enabled, InStep, ValidState;
    EventValid(s, g, e);
    if from % SECTOR_SIZE != 0 {
      OutOfStepRejects(s, g, buf[from..], to - from);
    }
    EventKeepsStep(s, g, e);
    WroteKeepsPointer(s, g, buf[from..], to - from);
    WroteBehind(s, g, SECTOR_SIZE * h.writePointer, buf, from, to);
    assert (to - from) % SECTOR_SIZE == 0 <==> to % SECTOR_SIZE == 0;
  }

  lemma {:induction false} PiecesInPlace(s: DeviceState, h: HandleState, buf: seq<byte>, cuts: seq<nat>)
    requires ValidPair(s, h) && InStep(s, h)
    requires Cuts(buf, cuts) && Run(s, h, Pieces(buf, cuts))
    ensures Last(cuts) <= |buf| && InPlace(h, Exec(s, h, Pieces(buf, cuts)), buf[..Last(cuts)])
    decreases |cuts|
  {
    hide DevAfter, Enabled;
    if |cuts| > 1 {
      PiecesSnoc(buf, cuts);
      var before, from := cuts[..|cuts| - 1], cuts[|cuts| - 2];
      RunSnoc(s, h, Pieces(buf, before), Piece(buf, from, Last(cuts)));
      PiecesInPlace(s, h, buf, before);
      PieceInPlace(h, Exec(s, h, Pieces(buf, before)).0, Exec(s, h, Pieces(buf, before)).1,
                   Piece(buf, from, Last(cuts)), buf, from, Last(cuts));
    } else {
      assert Pieces(buf, cuts) == [];
      assert ValidAt(s.zones, h.index);
      Ordered(s.zones);
    }
  }

  /** In a zone the handle is in step with, success always means that the whole buffer lies at the
      old pointer, whatever its length and wherever the calls stopped: a call that stops inside a
      sector leaves the handle out of step, and the loop cannot go on. */
  lemma WriteAllInStep(s: DeviceState, h: HandleState, buf: seq<byte>, cuts: seq<nat>)
    requires ValidPair(s, h) && InStep(s, h) && WriteAll(s, h, buf, cuts, Ok(()))
    ensures var from, t := SECTOR_SIZE * h.writePointer, Exec(s, h, Pieces(buf, cuts)).0;
            from + |buf| <= |t.data| && t.data[from..from + |buf|] == buf
    ensures InStep(Exec(s, h, Pieces(buf, cuts)).0, Exec(s, h, Pieces(buf, cuts)).1) <==> |buf| % SECTOR_SIZE == 0
  {
    hide Run, Exec, ValidState, InStep, Enabled;
    PiecesInPlace(s, h, buf, cuts);
    assert buf[..Last(cuts)] == buf;
  }

  function StartCuts(): (cuts: seq<nat>)
    ensures |cuts| == 1 && cuts[0] == 0
  {
    [0]
  }

  lemma CutsStart(buf: seq<byte>, cuts: seq<nat>)
    requires |cuts| == 1 && cuts[0] == 0
    ensures Cuts(buf, cuts) && Pieces(buf, cuts) == [] && Rest(buf, cuts) == buf
  {
  }

  lemma {:induction false} FirstEnabled(s: DeviceState, h: HandleState, es: seq<HandleEvent>)
    requires es != [] && Run(s, h, es)
    ensures ValidState(s) && Enabled(s, h, es[0])
  {
    hide ValidState, Enabled, DevAfter, HandleAfter;
    if |es| == 1 {
    } else {
      FirstEnabled(s, h, es[..|es| - 1]);
    }
  }

  // ---------- when the loop gets through ----------

  /** The zone takes writes at the handle's pointer and has room for `buf`, whole sectors, below its capacity. */
  ghost predicate HasRoom(s: DeviceState, h: HandleState, buf: seq<byte>) {
    && TakesWrites(s, h) && |buf| % SECTOR_SIZE == 0
    && SECTOR_SIZE * h.writePointer + |buf| <= SECTOR_SIZE * h.CapacityEnd()
  }

  /** The buffer, whole sectors, does not fit below the capacity. */
  predicate TooLong(h: HandleState, buf: seq<byte>) {
    buf != [] && |buf| % SECTOR_SIZE == 0 && SECTOR_SIZE * h.writePointer + |buf| > SECTOR_SIZE * h.CapacityEnd()
  }

  lemma NothingEnabled(s: DeviceState, h: HandleState, buf: seq<byte>)
    requires ValidPair(s, h)
    ensures TakesWrites(s, h) <==> Enabled(s, h, Wrote(buf, 0))
  {
    EnabledCounts(s, h, buf, 0);
    assert ValidAt(s.zones, h.index);
    ConventionalEndInside(s.zones, h.index);
  }

  /** Short of the capacity, a zone that has taken whole sectors takes more. */
  lemma TakesMore(s: DeviceState, h: HandleState, buf: seq<byte>, n: nat)
    requires ValidPair(s, h) && Enabled(s, h, Wrote(buf, n)) && n % SECTOR_SIZE == 0
    requires SECTOR_SIZE * h.writePointer + n < SECTOR_SIZE * h.CapacityEnd()
    ensures TakesWrites(DevAfter(s, h, Wrote(buf, n)), HandleAfter(h, Wrote(buf, n)))
  {
    assert ValidAt(s.zones, h.index);
    WriteInside(s, h.writePointer, n);
    IndexUnique(s.zones, h.writePointer, h.index);
    assert SectorsTouched(n) == n / SECTOR_SIZE;
  }

  /** Whatever the calls took, the zone takes the rest of a buffer it has room for. */
  lemma {:induction false} RestIsTaken(s: DeviceState, h: HandleState, buf: seq<byte>, cuts: seq<nat>)
    requires ValidPair(s, h) && HasRoom(s, h, buf) && Cuts(buf, cuts)
    requires Run(s, h, Pieces(buf, cuts)) && Last(cuts) < |buf|
    ensures TakesWrites(Exec(s, h, Pieces(buf, cuts)).0, Exec(s, h, Pieces(buf, cuts)).1)
    decreases |cuts|
  {
    hide DevAfter, HandleAfter, Enabled, ValidPair, TakesWrites;
    if |cuts| == 1 {
      assert Pieces(buf, cuts) == [];
    } else {
      PiecesSnoc(buf, cuts);
      var before, from := cuts[..|cuts| - 1], cuts[|cuts| - 2];
      var (t, g) := Exec(s, h, Pieces(buf, before));
      RunSnoc(s, h, Pieces(buf, before), Piece(buf, from, Last(cuts)));
      RunValid(s, h, Pieces(buf, before));
      PiecesAreWhole(s, h, buf, before);
      PieceIsWhole(t, g, buf, from, Last(cuts));
      TakesMore(t, g, buf[from..], Last(cuts) - from);
    }
  }

  /** An execution of the loop over a buffer the zone has room for succeeds, unless it stops while the zone
      would take the rest. */
  lemma WriteAllSucceeds(s: DeviceState, h: HandleState, buf: seq<byte>, cuts: seq<nat>, r: Result<()>)
    requires ValidPair(s, h) && HasRoom(s, h, buf) && WriteAll(s, h, buf, cuts, r)
    ensures r.Err? ==> TakesWrites(Exec(s, h, Pieces(buf, cuts)).0, Exec(s, h, Pieces(buf, cuts)).1)
  {
    if r.Err? {
      RestIsTaken(s, h, buf, cuts);
    }
  }

  /** In step, a buffer longer than what is left is never written, and the loop stops at the capacity, unless
      it stops while the zone would take the rest. */
  lemma WriteAllFills(s: DeviceState, h: HandleState, buf: seq<byte>, cuts: seq<nat>, r: Result<()>)
    requires ValidPair(s, h) && InStep(s, h) && TooLong(h, buf) && WriteAll(s, h, buf, cuts, r)
    ensures r.Err?
    ensures var (t, g) := Exec(s, h, Pieces(buf, cuts));
            && (TakesWrites(t, g) || g.writePointer >= g.CapacityEnd())
            && (h.writePointer < h.CapacityEnd() && !TakesWrites(t, g) ==>
                  SECTOR_SIZE * h.writePointer + Last(cuts) == SECTOR_SIZE * h.CapacityEnd())
  {
    hide Run, Exec, ValidState;
    var (t, g) := Exec(s, h, Pieces(buf, cuts));
    WriteAllOutcome(s, h, buf, cuts, r);
    PiecesAreWhole(s, h, buf, cuts);
    InStepTakes(t, g);
    if h.writePointer < h.CapacityEnd() {
      RunBounded(s, h, Pieces(buf, cuts));
    } else if r.Ok? {
      FirstEnabled(s, h, Pieces(buf, cuts));
    }
  }

  /** In step below the capacity, the zone takes writes. */
  lemma InStepTakes(s: DeviceState, h: HandleState)
    requires ValidPair(s, h) && InStep(s, h)
    ensures TakesWrites(s, h) <==> h.writePointer < h.CapacityEnd()
  {
    assert ValidAt(s.zones, h.index);
  }
}
