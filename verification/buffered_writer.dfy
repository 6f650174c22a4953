/** The standard library's buffered writer over a zone handle's `Write` implementation. */
module BufferedWriters {
  import opened ZonedTypes
  import opened DeviceModel
  import opened HandleModel
  import opened ZoneIsolation
  import opened ZoneHandles

  /** What the writer reports: an inner write that took nothing, or the inner writer's own error. */
  datatype WriteError = WriteZero | Other(cause: ZonedError) {
    /** The error with which `write_all_sequential` would have ended. */
    function Cause(index: nat): ZonedError {
      if Other? then cause else ZoneFull(index)
    }
  }

  datatype WriteResult = Complete | Broken(error: WriteError)

  /** The loop of HandleModel over `bytes`, from `x` to `y`. */
  ghost predicate LoopIn(x: Pair, bytes: seq<byte>, y: Pair, cuts: seq<nat>, r: Result<()>) {
    WriteAll(x.0, x.1, bytes, cuts, r) && y == Exec(x.0, x.1, Pieces(bytes, cuts))
  }

  /** From `x` on, the handle was given all of `bytes` in writes that each took what they could, and
      stands at `y`. */
  ghost predicate Sent(x: Pair, bytes: seq<byte>, y: Pair) {
    exists cuts :: LoopIn(x, bytes, y, cuts, Ok(()))
  }

  /** The same, but the writes broke off at `y`, with `rest` not taken. */
  ghost predicate BrokeOff(x: Pair, bytes: seq<byte>, y: Pair, error: WriteError, rest: seq<byte>) {
    exists cuts :: LoopIn(x, bytes, y, cuts, Err(error.Cause(x.1.index))) && rest == Rest(bytes, cuts)
  }

  lemma NothingLeft(x: Pair, bytes: seq<byte>, y: Pair, cuts: seq<nat>)
    requires Writing(x.0, x.1, bytes, cuts, y) && Rest(bytes, cuts) == []
    ensures Sent(x, bytes, y)
  {
    assert LoopIn(x, bytes, y, cuts, Ok(()));
  }

  lemma BreaksOff(x: Pair, bytes: seq<byte>, y: Pair, cuts: seq<nat>, error: WriteError)
    requires Writing(x.0, x.1, bytes, cuts, y) && y.1.index == x.1.index
    requires Stops(y, Rest(bytes, cuts), Err(error.Cause(x.1.index)))
    ensures BrokeOff(x, bytes, y, error, Rest(bytes, cuts))
  {
    assert LoopIn(x, bytes, y, cuts, Err(error.Cause(x.1.index)));
  }

  /** Writes for which the zone has room break off only while it would take the rest. */
  lemma BreaksOffOnlyEarly(x: Pair, bytes: seq<byte>, y: Pair, error: WriteError, rest: seq<byte>)
    requires ValidPair(x.0, x.1) && HasRoom(x.0, x.1, bytes) && BrokeOff(x, bytes, y, error, rest)
    ensures TakesWrites(y.0, y.1)
  {
    hide WriteAll, Exec, ValidPair, HasRoom, TakesWrites;
    var cuts :| LoopIn(x, bytes, y, cuts, Err(error.Cause(x.1.index))) && rest == Rest(bytes, cuts);
    WriteAllSucceeds(x.0, x.1, bytes, cuts, Err(error.Cause(x.1.index)));
  }

  /** Whatever became of the bytes, no other zone noticed. */
  lemma SendingKeepsOthers(x: Pair, bytes: seq<byte>, y: Pair, r: WriteResult, rest: seq<byte>)
    requires ValidPair(x.0, x.1) && Isolated(x.0, x.1.index)
    requires if r.Complete? then Sent(x, bytes, y) else BrokeOff(x, bytes, y, r.error, rest)
    ensures KeepsOthers(x.0, y.0, x.1.index) && Isolated(y.0, x.1.index)
  {
    hide Exec, ValidPair, KeepsOthers, Isolated, Stops;
    var result := if r.Complete? then Ok(()) else Err(r.error.Cause(x.1.index));
    var cuts :| LoopIn(x, bytes, y, cuts, result);
    RunKeepsOthers(x.0, x.1, Pieces(bytes, cuts));
  }

  /** On a device that makes progress, what broke off did so in the device or at the zone's capacity; on a
      dependable one, where the zone takes no more. */
  ghost predicate ByDeviceOrFull(inner: ZoneHandle, error: WriteError)
    reads inner, inner.device
  {
    && (inner.device.Dependable() ==> !TakesWrites(inner.device.state, inner.Abs()))
    && match error
       case WriteZero => !inner.device.progressive
       case Other(cause) =>
         if inner.writePointer >= inner.start + inner.capacity then cause == ZoneFull(inner.zoneIndex) else cause.FromDevice()
  }

  /** The loop of a flush: writes what the guard still holds and counts what was taken. */
  method Drain(inner: ZoneHandle, held: seq<byte>) returns (r: WriteResult, written: nat)
    requires inner.Valid()
    modifies inner`writePointer, inner`log, inner.device
    ensures inner.Valid() && written <= |held|
    ensures r.Complete? ==> written == |held| && Sent(old(inner.Now()), held, inner.Now())
    ensures r.Broken? ==> BrokeOff(old(inner.Now()), held, inner.Now(), r.error, held[written..])
    ensures r.Broken? ==> ByDeviceOrFull(inner, r.error)
  {
    ghost var x := inner.Now();
    ghost var cuts := StartCuts();
    r, written := Complete, 0;
    CutsStart(held, cuts);
    assert Writing(x.0, x.1, held, cuts, inner.Now());
    hide Run, Exec, Stops, ValidPair;
    while written < |held|
      invariant inner.Valid() && written <= |held| && r == Complete
      invariant Writing(x.0, x.1, held, cuts, inner.Now()) && Rest(held, cuts) == held[written..]
    {
      r, cuts, written := DrainOnce(inner, held, written, x, cuts);
      if r.Broken? {
        return;
      }
    }
    NothingLeft(x, held, inner.Now(), cuts);
  }

  /** One round of it. */
  method DrainOnce(inner: ZoneHandle, held: seq<byte>, written: nat, ghost x: Pair, ghost cuts: seq<nat>)
    returns (r: WriteResult, ghost more: seq<nat>, now: nat)
    requires inner.Valid() && written < |held|
    requires Writing(x.0, x.1, held, cuts, inner.Now())
    requires Rest(held, cuts) == held[written..] && x.1.index == inner.zoneIndex
    modifies inner`writePointer, inner`log, inner.device
    ensures inner.Valid()
    ensures r.Complete? ==>
              written < now <= |held| && Writing(x.0, x.1, held, more, inner.Now()) && Rest(held, more) == held[now..]
    ensures r.Broken? ==> now == written && BrokeOff(x, held, inner.Now(), r.error, held[now..])
    ensures r.Broken? ==> ByDeviceOrFull(inner, r.error)
  {
    hide Run, Exec;
    var n;
    n, more := inner.WriteRest(held[written..], x.0, x.1, held, cuts);
    now := written;
    if n.Err? {
      r := Broken(Other(n.error));
      BreaksOff(x, held, inner.Now(), more, r.error);
    } else if n.value == 0 {
      r := Broken(WriteZero);
      BreaksOff(x, held, inner.Now(), more, r.error);
    } else {
      r, now := Complete, written + n.value;
    }
  }

  class BufWriter {
    const inner: ZoneHandle
    const capacity: nat
    var buf: seq<byte>

    constructor (capacity: nat, inner: ZoneHandle)
      ensures this.inner == inner && this.capacity == capacity && buf == []
    {
      this.inner, this.capacity, buf := inner, capacity, [];
    }

    ghost predicate Valid()
      reads this, inner, inner.device
    {
      inner.Valid() && |buf| <= capacity
    }

    ghost function Now(): Pair
      reads inner, inner.device
    {
      inner.Now()
    }

    /** Since `x` no zone but the handle's own has changed, if its writes cannot reach into others. */
    ghost predicate Alone(x: Pair)
      reads inner, inner.device
    {
      Isolated(x.0, inner.zoneIndex) ==> KeepsOthers(x.0, Now().0, inner.zoneIndex) && Isolated(Now().0, inner.zoneIndex)
    }

    /** Writes the buffer out; what was written leaves the buffer, on failure too. */
    method FlushBuf() returns (r: WriteResult)
      requires Valid()
      modifies this, inner`writePointer, inner`log, inner.device
      ensures Valid() && Alone(old(Now()))
      ensures r.Complete? ==> buf == [] && Sent(old(Now()), old(buf), Now())
      ensures r.Broken? ==> BrokeOff(old(Now()), old(buf), Now(), r.error, buf)
      ensures r.Broken? ==> ByDeviceOrFull(inner, r.error)
      ensures inner.device.Dependable() && HasRoom(old(Now()).0, old(Now()).1, old(buf)) ==> r.Complete?
    {
      hide Sent, BrokeOff, KeepsOthers, Isolated, HasRoom, TakesWrites;
      ghost var x, held := Now(), buf;
      var written;
      r, written := Drain(inner, buf);
      buf := buf[written..];
      if r.Broken? && HasRoom(x.0, x.1, held) {
        BreaksOffOnlyEarly(x, held, Now(), r.error, buf);
      }
      if Isolated(x.0, inner.zoneIndex) {
        SendingKeepsOthers(x, held, Now(), r, buf);
      }
    }

    /** Buffers `data` where it fits; otherwise flushes first, and passes on directly what is at least
        as long as the whole buffer. `mid` is where the flush ended. */
    method WriteAll(data: seq<byte>) returns (r: WriteResult, ghost mid: Pair)
      requires Valid()
      modifies this, inner`writePointer, inner`log, inner.device
      ensures Valid() && Alone(old(Now()))
      ensures |old(buf)| + |data| <= capacity && |data| < capacity ==>
                r.Complete? && buf == old(buf) + data && Now() == old(Now())
      ensures (|old(buf)| + |data| > capacity || |data| >= capacity) && r.Complete? ==>
                && (if |old(buf)| + |data| > capacity then Sent(old(Now()), old(buf), mid) else mid == old(Now()))
                && (if |data| < capacity then buf == data && Now() == mid else buf == [] && Sent(mid, data, Now()))
      ensures r.Broken? ==> ByDeviceOrFull(inner, r.error)
    {
      hide Sent, BrokeOff, KeepsOthers, Isolated, ValidState;
      ghost var x := Now();
      KeepsOthersStart(x.0, inner.zoneIndex);
      mid, r := x, Complete;
      if |data| < capacity - |buf| {
        buf := buf + data;
      } else {
        if |data| > capacity - |buf| {
          r := FlushBuf();
          if r.Broken? {
            return;
          }
        }
        mid := Now();
        if |data| >= capacity {
          r := WriteThrough(data);
          if Isolated(x.0, inner.zoneIndex) {
            KeepsOthersOn(x.0, mid.0, Now().0, inner.zoneIndex);
          }
        } else {
          buf := buf + data;
        }
      }
    }

    /** The inner writer's own `write_all`: the loop of `write_all_sequential` up to the error value. */
    method WriteThrough(data: seq<byte>) returns (r: WriteResult)
      requires Valid()
      modifies inner`writePointer, inner`log, inner.device
      ensures Valid() && Alone(old(Now()))
      ensures r.Complete? ==> Sent(old(Now()), data, Now())
      ensures r.Broken? ==> ByDeviceOrFull(inner, r.error)
    {
      hide Sent, BrokeOff, KeepsOthers, Isolated;
      ghost var x := Now();
      var written;
      r, written := Drain(inner, data);
      if Isolated(x.0, inner.zoneIndex) {
        SendingKeepsOthers(x, data, Now(), r, data[written..]);
      }
    }
  }

  // ---------- sending to a zone ----------

  /** Sending whole sectors appends them. */
  lemma SentAppends(x: Pair, bytes: seq<byte>, y: Pair)
    requires ValidPair(x.0, x.1) && |bytes| % SECTOR_SIZE == 0 && Sent(x, bytes, y)
    ensures Appended(x.0, x.1, y, bytes)
  {
    hide WriteAll, Exec, Appended;
    var cuts :| LoopIn(x, bytes, y, cuts, Ok(()));
    WriteAllOutcome(x.0, x.1, bytes, cuts, Ok(()));
    assert bytes[..|bytes|] == bytes;
  }

  /** What is sent to a sequential zone fits its capacity. */
  lemma SentFits(x: Pair, bytes: seq<byte>, y: Pair)
    requires ValidPair(x.0, x.1) && !x.0.zones[x.1.index].zoneType.Conventional?
    requires x.1.writePointer <= x.1.CapacityEnd()
    requires |bytes| % SECTOR_SIZE == 0 && bytes != [] && Sent(x, bytes, y)
    ensures SECTOR_SIZE * x.1.writePointer + |bytes| <= SECTOR_SIZE * x.1.CapacityEnd()
  {
    hide WriteAll, Exec, InStep, ValidState;
    if !InStep(x.0, x.1) {
      OutOfStepSendsNothing(x, bytes, y);
    } else if SECTOR_SIZE * x.1.writePointer + |bytes| > SECTOR_SIZE * x.1.CapacityEnd() {
      var cuts :| LoopIn(x, bytes, y, cuts, Ok(()));
      WriteAllTooLong(x.0, x.1, bytes, cuts, Ok(()));
    }
  }

  /** The handle's zone is sequential and out of step with the handle. */
  ghost predicate OutOfStep(x: Pair) {
    ValidPair(x.0, x.1) && !x.0.zones[x.1.index].zoneType.Conventional? && !InStep(x.0, x.1)
  }

  /** An out-of-step handle can send nothing. */
  lemma OutOfStepSendsNothing(x: Pair, bytes: seq<byte>, y: Pair)
    requires OutOfStep(x) && bytes != []
    ensures !Sent(x, bytes, y)
  {
    if Sent(x, bytes, y) {
      var cuts :| LoopIn(x, bytes, y, cuts, Ok(()));
      FirstEnabled(x.0, x.1, Pieces(bytes, cuts));
      OutOfStepRejects(x.0, x.1, Pieces(bytes, cuts)[0].buf, Pieces(bytes, cuts)[0].n);
    }
  }

  lemma SentInPlace(x: Pair, bytes: seq<byte>, y: Pair, cuts: seq<nat>)
    requires ValidPair(x.0, x.1) && InStep(x.0, x.1) && LoopIn(x, bytes, y, cuts, Ok(()))
    ensures InPlace(x.1, y, bytes)
  {
    hide InPlace, InStep, ValidPair, Run, Exec;
    PiecesInPlace(x.0, x.1, bytes, cuts);
    assert bytes[..Last(cuts)] == bytes;
  }

  lemma PartSentInStep(x: Pair, bytes: seq<byte>, y: Pair)
    requires ValidPair(x.0, x.1) && InStep(x.0, x.1) && |bytes| % SECTOR_SIZE != 0 && Sent(x, bytes, y)
    ensures OutOfStep(y)
  {
    hide WriteAll, Exec, InStep, ValidState;
    var cuts :| LoopIn(x, bytes, y, cuts, Ok(()));
    SentInPlace(x, bytes, y, cuts);
  }

  /** Sending anything but whole sectors to a sequential zone leaves the handle out of step. */
  lemma SentPartLeavesOutOfStep(x: Pair, bytes: seq<byte>, y: Pair)
    requires ValidPair(x.0, x.1) && !x.0.zones[x.1.index].zoneType.Conventional?
    requires |bytes| % SECTOR_SIZE != 0 && Sent(x, bytes, y)
    ensures OutOfStep(y)
  {
    hide Sent, InStep, ValidState;
    if InStep(x.0, x.1) {
      PartSentInStep(x, bytes, y);
    } else {
      OutOfStepSendsNothing(x, bytes, y);
    }
  }
}
