/** What becomes of one task's payload while others share its handle, and how the order of the operations
    relates to time. */
module AsyncPayloads {
  import opened ZonedTypes
  import opened DeviceModel
  import opened HandleModel
  import opened AsyncHandles
  import TornWrites

  // ---------- valid states in every order ----------

  lemma ExecutesKeepsValid(op: Op, x: Pair, y: Pair, r: Result<nat>)
    requires ValidPair(x.0, x.1) && Executes(op, x, y, r)
    ensures ValidPair(y.0, y.1) && y.1 == x.1.(writePointer := y.1.writePointer)
  {
    hide DevAfter, Exec, Run, Stops, ValidPair, Enabled;
    match op
    case Write(buf) =>
      if r.Ok? {
        EventValid(x.0, x.1, Wrote(buf, r.value));
      }
    case WriteAllOf(buf) =>
      var cuts :| Loop(x, y, buf, cuts, WithoutCount(r));
      RunValid(x.0, x.1, Pieces(buf, cuts));
    case Command(c) =>
      if r.Ok? {
        CommandEnabled(x.0, x.1, c);
        EventValid(x.0, x.1, Commanded(c));
      }
  }

  lemma CommandEnabled(s: DeviceState, h: HandleState, c: ZoneCommand)
    requires ValidPair(s, h)
    ensures ValidState(s) && Enabled(s, h, Commanded(c))
  {
  }

  lemma {:induction false} OrderIsValid(x: Pair, order: seq<Entry>, n: nat)
    requires ValidPair(x.0, x.1) && Sequential(x, order) && n <= |order|
    ensures ValidPair(Before(x, order, n).0, Before(x, order, n).1)
    decreases n
  {
    hide ValidPair, Executes;
    if n == 0 {
    } else {
      OrderIsValid(x, order, n - 1);
      assert ExecutesAt(x, order, n - 1);
      ExecutesKeepsValid(order[n - 1].op, Before(x, order, n - 1), order[n - 1].after, order[n - 1].result);
    }
  }

  // ---------- in one piece when done ----------

  /** Entry `k` of the order is a `write_all_sequential` that reported success. */
  ghost predicate WroteAll(order: seq<Entry>, k: nat) {
    k < |order| && order[k].op.WriteAllOf? && order[k].result.Ok?
  }

  /** In every reachable state, tasks still running included: a payload reported as written lay in one piece
      at the pointer it found when its operation was done, whatever operations were before it, unless
      its length could be torn by a writable conventional zone. */
  lemma ContiguousWhenDone(a: Shared, es: seq<Step>, k: nat)
    requires Init(a) && CanAll(a, es) && WroteAll(AfterAll(a, es).order, k)
    requires var x := Before(a.now, AfterAll(a, es).order, k);
             !TornWrites.Tears(x.0, x.1, |AfterAll(a, es).order[k].op.buf|)
    ensures var order := AfterAll(a, es).order;
            TornWrites.Placed(Before(a.now, order, k).1, order[k].after, order[k].op.buf)
  {
    SerializedInEveryRun(a, es);
    hide AfterAll, CanAll, Executes;
    var order := AfterAll(a, es).order;
    OrderIsValid(a.now, order, k);
    assert ExecutesAt(a.now, order, k);
    DonePlaced(Before(a.now, order, k), order[k].op.buf, order[k].after, order[k].result);
  }

  lemma DonePlaced(x: Pair, buf: seq<byte>, y: Pair, r: Result<nat>)
    requires ValidPair(x.0, x.1) && Executes(WriteAllOf(buf), x, y, r) && r.Ok? && !TornWrites.Tears(x.0, x.1, |buf|)
    ensures TornWrites.Placed(x.1, y, buf)
  {
    hide Run, Exec, ValidPair, TornWrites.Tears, TornWrites.Placed;
    var cuts :| Loop(x, y, buf, cuts, WithoutCount(r));
    TornWrites.PlacedUnlessTorn(x.0, x.1, buf, cuts);
  }

  // ---------- still in one piece later ----------

  /** `bytes` lie at byte `from`, and nothing but a reset can make the handle write there again. */
  ghost predicate Kept(x: Pair, from: nat, bytes: seq<byte>) {
    && ValidPair(x.0, x.1)
    && from + |bytes| <= |x.0.data| && x.0.data[from..from + |bytes|] == bytes
    && Passed(x.0, x.1, from + |bytes|)
  }

  /** The handle writes no more before byte `end`: its pointer is past it, or at the capacity, or the zone's
      own pointer, where a sequential zone takes writes, is past it. */
  ghost predicate Passed(s: DeviceState, h: HandleState, end: nat)
    requires h.index < |s.zones|
  {
    var z := s.zones[h.index];
    || end <= SECTOR_SIZE * h.writePointer
    || h.writePointer >= h.CapacityEnd()
    || (!z.zoneType.Conventional? && z.writePointer.Some? && end <= SECTOR_SIZE * z.writePointer.value)
  }

  lemma WroteKeeps(s: DeviceState, h: HandleState, buf: seq<byte>, n: nat, from: nat, bytes: seq<byte>)
    requires Kept((s, h), from, bytes) && Enabled(s, h, Wrote(buf, n))
    ensures Kept(Once((s, h), Wrote(buf, n)), from, bytes)
  {
    EnabledCounts(s, h, buf, n);
    EventValid(s, h, Wrote(buf, n));
    WriteInside(s, h.writePointer, n);
    assert ValidAt(s.zones, h.index);
    IndexUnique(s.zones, h.writePointer, h.index);
  }

  lemma CommandKeeps(s: DeviceState, h: HandleState, c: ZoneCommand, from: nat, bytes: seq<byte>)
    requires Kept((s, h), from, bytes) && !c.Reset?
    ensures Kept(Once((s, h), Commanded(c)), from, bytes)
  {
    EventValid(s, h, Commanded(c));
    ZoneInside(s, h.index);
    assert ValidAt(s.zones, h.index);
    SpliceNothing(s.data, SECTOR_SIZE * s.zones[h.index].start);
  }

  lemma SpliceNothing(data: seq<byte>, off: nat)
    requires off <= |data|
    ensures Splice(data, off, []) == data
  {
  }

  lemma {:induction false} PiecesKeep(s: DeviceState, h: HandleState, buf: seq<byte>, cuts: seq<nat>, from: nat,
                                      bytes: seq<byte>)
    requires Kept((s, h), from, bytes) && Cuts(buf, cuts) && Run(s, h, Pieces(buf, cuts))
    ensures Kept(Exec(s, h, Pieces(buf, cuts)), from, bytes)
    decreases |cuts|
  {
    hide Kept, DevAfter, HandleAfter, Enabled;
    if |cuts| == 1 {
      assert Pieces(buf, cuts) == [];
    } else {
      PiecesSnoc(buf, cuts);
      var before, last := cuts[..|cuts| - 1], Piece(buf, cuts[|cuts| - 2], Last(cuts));
      RunSnoc(s, h, Pieces(buf, before), last);
      PiecesKeep(s, h, buf, before, from, bytes);
      var (t, g) := Exec(s, h, Pieces(buf, before));
      WroteKeeps(t, g, last.buf, last.n, from, bytes);
    }
  }

  /** Any operation but a reset, with a buffer of any length, leaves what was passed as it is. */
  lemma OperationKeeps(op: Op, x: Pair, y: Pair, r: Result<nat>, from: nat, bytes: seq<byte>)
    requires Kept(x, from, bytes) && Executes(op, x, y, r) && op != Command(Reset)
    ensures Kept(y, from, bytes)
  {
    hide Kept, DevAfter, HandleAfter, Exec, Run, Stops, Enabled;
    match op
    case Write(buf) =>
      if r.Ok? {
        WroteKeeps(x.0, x.1, buf, r.value, from, bytes);
      }
    case WriteAllOf(buf) =>
      var cuts :| Loop(x, y, buf, cuts, WithoutCount(r));
      PiecesKeep(x.0, x.1, buf, cuts, from, bytes);
    case Command(c) =>
      if r.Ok? {
        CommandKeeps(x.0, x.1, c, from, bytes);
      }
  }

  /** A buffer that its own operation leaves passed: whole sectors, or any in a sequential zone. */
  ghost predicate Settled(s: DeviceState, h: HandleState, buf: seq<byte>)
    requires h.index < |s.zones|
  {
    |buf| % SECTOR_SIZE == 0 || !s.zones[h.index].zoneType.Conventional?
  }

  lemma PayloadKept(x: Pair, buf: seq<byte>, y: Pair, r: Result<nat>)
    requires ValidPair(x.0, x.1) && Executes(WriteAllOf(buf), x, y, r) && r.Ok? && Settled(x.0, x.1, buf)
    ensures Kept(y, SECTOR_SIZE * x.1.writePointer, buf)
  {
    hide Executes, Settled, Passed, ValidPair, TornWrites.Placed, TornWrites.Tears;
    ExecutesKeepsValid(WriteAllOf(buf), x, y, r);
    SettledIsNotTorn(x.0, x.1, buf);
    DonePlaced(x, buf, y, r);
    PlacedBytes(x.1, y, buf);
    PayloadPassed(x, buf, y, r);
  }

  lemma SettledIsNotTorn(s: DeviceState, h: HandleState, buf: seq<byte>)
    requires ValidPair(s, h) && Settled(s, h, buf)
    ensures !TornWrites.Tears(s, h, |buf|)
  {
  }

  lemma PlacedBytes(h: HandleState, now: Pair, buf: seq<byte>)
    requires TornWrites.Placed(h, now, buf)
    ensures var from := SECTOR_SIZE * h.writePointer;
            from + |buf| <= |now.0.data| && now.0.data[from..from + |buf|] == buf
  {
  }

  lemma PayloadPassed(x: Pair, buf: seq<byte>, y: Pair, r: Result<nat>)
    requires ValidPair(x.0, x.1) && Executes(WriteAllOf(buf), x, y, r) && r.Ok? && Settled(x.0, x.1, buf)
    requires ValidPair(y.0, y.1)
    ensures Passed(y.0, y.1, SECTOR_SIZE * x.1.writePointer + |buf|)
  {
    hide Run, Exec, ValidState, DevAfter, Enabled, InStep;
    var cuts :| Loop(x, y, buf, cuts, WithoutCount(r));
    if |buf| % SECTOR_SIZE == 0 {
      PiecesAreWhole(x.0, x.1, buf, cuts);
    } else {
      LastPiecePassed(x.0, x.1, buf, cuts);
    }
  }

  lemma LastPiecePassed(s: DeviceState, h: HandleState, buf: seq<byte>, cuts: seq<nat>)
    requires ValidPair(s, h) && buf != [] && WriteAll(s, h, buf, cuts, Ok(()))
    requires !s.zones[h.index].zoneType.Conventional?
    ensures var y := Exec(s, h, Pieces(buf, cuts));
            ValidPair(y.0, y.1) && Passed(y.0, y.1, SECTOR_SIZE * h.writePointer + |buf|)
  {
    hide Run, Exec, ValidState, DevAfter, HandleAfter, Enabled, InStep;
    assert CutAt(buf, cuts, |cuts| - 1);
    TornWrites.SuccessTakesWrites(s, h, buf, cuts);
    PiecesSnoc(buf, cuts);
    var before, from := cuts[..|cuts| - 1], cuts[|cuts| - 2];
    RunSnoc(s, h, Pieces(buf, before), Piece(buf, from, Last(cuts)));
    PiecesInPlace(s, h, buf, before);
    var (t, g) := Exec(s, h, Pieces(buf, before));
    PiecePassed(h, t, g, buf, from);
  }

  lemma PiecePassed(h: HandleState, s: DeviceState, g: HandleState, buf: seq<byte>, from: nat)
    requires from < |buf| && InPlace(h, (s, g), buf[..from]) && Enabled(s, g, Piece(buf, from, |buf|))
    ensures var y := Once((s, g), Piece(buf, from, |buf|));
            ValidPair(y.0, y.1) && Passed(y.0, y.1, SECTOR_SIZE * h.writePointer + |buf|)
  {
    var e := Piece(buf, from, |buf|);
    EventValid(s, g, e);
    EnabledCounts(s, g, e.buf, e.n);
    assert ValidAt(s.zones, g.index);
    IndexUnique(s.zones, g.writePointer, g.index);
    WriteInside(s, g.writePointer, e.n);
    WrittenPasses(s.zones[g.index], e.n);
  }

  /** Behind a write the zone's pointer is past its last byte. */
  lemma WrittenPasses(z: Zone, n: nat)
    requires z.Valid() && z.Active() && !z.zoneType.Conventional?
    requires SECTOR_SIZE * z.writePointer.value + n <= SECTOR_SIZE * z.CapacityEnd()
    ensures Written(z, n).writePointer.Some?
    ensures SECTOR_SIZE * z.writePointer.value + n <= SECTOR_SIZE * Written(z, n).writePointer.value
  {
  }

  /** No operation from entry `k + 1` to entry `n - 1` is a reset. */
  ghost predicate NoResetBetween(order: seq<Entry>, k: nat, n: nat) {
    forall j :: k < j < n && j < |order| ==> order[j].op != Command(Reset)
  }

  lemma {:induction false} KeptInOrder(x: Pair, order: seq<Entry>, k: nat, n: nat)
    requires ValidPair(x.0, x.1) && Sequential(x, order) && WroteAll(order, k) && k < n <= |order|
    requires NoResetBetween(order, k, n)
    requires Before(x, order, k).1.index < |Before(x, order, k).0.zones|
    requires Settled(Before(x, order, k).0, Before(x, order, k).1, order[k].op.buf)
    ensures Kept(Before(x, order, n), SECTOR_SIZE * Before(x, order, k).1.writePointer, order[k].op.buf)
    decreases n
  {
    hide Kept, Executes, ValidPair, Settled;
    assert ExecutesAt(x, order, n - 1);
    if n == k + 1 {
      OrderIsValid(x, order, k);
      PayloadKept(Before(x, order, k), order[k].op.buf, order[k].after, order[k].result);
    } else {
      KeptInOrder(x, order, k, n - 1);
      OperationKeeps(order[n - 1].op, Before(x, order, n - 1), order[n - 1].after, order[n - 1].result,
                     SECTOR_SIZE * Before(x, order, k).1.writePointer, order[k].op.buf);
    }
  }

  /** Whatever the interleaving and whatever the other operations, resets before it included: once all tasks
      have finished, a payload reported as written still lies in one piece where it was put, unless a
      later operation of the order is a reset. */
  lemma EveryPayloadIsContiguous(a: Shared, es: seq<Step>, k: nat)
    requires Init(a) && CanAll(a, es) && WroteAll(AfterAll(a, es).order, k)
    requires forall t: nat :: t in AfterAll(a, es).tasks ==> AfterAll(a, es).tasks[t].Finished?
    requires NoResetBetween(AfterAll(a, es).order, k, |AfterAll(a, es).order|)
    requires var x := Before(a.now, AfterAll(a, es).order, k);
             x.1.index < |x.0.zones| && Settled(x.0, x.1, AfterAll(a, es).order[k].op.buf)
    ensures var b := AfterAll(a, es);
            var from, buf := SECTOR_SIZE * Before(a.now, b.order, k).1.writePointer, b.order[k].op.buf;
            from + |buf| <= |b.now.0.data| && b.now.0.data[from..from + |buf|] == buf
  {
    EveryRunIsSequential(a, es);
    var order := AfterAll(a, es).order;
    hide AfterAll, CanAll, Sequential;
    KeptInOrder(a.now, order, k, |order|);
  }

  // ---------- the order and time ----------

  lemma StepGrowsOrder(a: Shared, e: Step)
    ensures a.order <= After(a, e).order
  {
  }

  lemma {:induction false} OrderGrows(a: Shared, es: seq<Step>, p: nat)
    requires p <= |es|
    ensures AfterAll(a, es[..p]).order <= AfterAll(a, es).order
    decreases |es|
  {
    hide After;
    if p == |es| {
      assert es[..p] == es;
    } else {
      var before := es[..|es| - 1];
      OrderGrows(a, before, p);
      assert before[..p] == es[..p];
      StepGrowsOrder(AfterAll(a, before), es[|es| - 1]);
    }
  }

  lemma {:induction false} PrefixCan(a: Shared, es: seq<Step>, p: nat)
    requires CanAll(a, es) && p <= |es|
    ensures CanAll(a, es[..p])
    decreases |es|
  {
    hide Can, After;
    if p == |es| {
      assert es[..p] == es;
    } else {
      PrefixCan(a, es[..|es| - 1], p);
      assert es[..|es| - 1][..p] == es[..p];
    }
  }

  /** The order respects time: an operation that had finished before another task was spawned comes before
      that task's. */
  lemma OrderRespectsTime(a: Shared, es: seq<Step>, p: nat, i: nat, j: nat)
    requires Init(a) && CanAll(a, es) && p <= |es| && i < |AfterAll(a, es).order| && j < |AfterAll(a, es).order|
    requires var early := AfterAll(a, es[..p]);
             var order := AfterAll(a, es).order;
             && order[i].task in early.tasks && early.tasks[order[i].task].Finished?
             && order[j].task !in early.tasks
    ensures i < j
  {
    PrefixCan(a, es, p);
    SerializedInEveryRun(a, es[..p]);
    SerializedInEveryRun(a, es);
    OrderGrows(a, es, p);
    var early, order := AfterAll(a, es[..p]), AfterAll(a, es).order;
    hide AfterAll, CanAll, Sequential, Current;
    assert Placed(early, order[i].task);
    var k :| Place(early, order[i].task, k);
    assert order[k].task == order[i].task && k == i;
    assert j < |early.order| ==> Place(early, early.order[j].task, j);
  }
}
