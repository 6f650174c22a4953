/** `ZoneHandle`: exclusive, zone-scoped operations with a locally tracked write pointer, each proved
    against the event it is in HandleModel. */
module ZoneHandles {
  import opened ZonedTypes
  import opened DeviceModel
  import opened ZonedDevices
  import opened HandleModel
  import opened ZoneIsolation
  import opened AllocatorInners

  class ZoneHandle {
    const device: ZonedDevice
    const zoneIndex: u32
    const start: nat
    const len: nat
    const capacity: nat
    var writePointer: nat
    const allocator: Option<AllocatorInner>
    /** Bytes accepted since the last reset, behind those the zone held when the handle was made. */
    ghost var log: seq<byte>

    constructor (device: ZonedDevice, zoneIndex: u32, zone: Zone, allocator: Option<AllocatorInner>)
      requires device.Valid() && zoneIndex < |device.state.zones| && zone == Descriptors(device.state)[zoneIndex]
      ensures Valid() && this.device == device && this.allocator == allocator
      ensures Abs() == Opened(zoneIndex, zone)
    {
      this.device, this.zoneIndex, this.allocator := device, zoneIndex, allocator;
      start, len, capacity := zone.start, zone.len, zone.capacity;
      writePointer := if zone.writePointer.Some? then zone.writePointer.value else zone.start;
      new;
      OpenedValid(device.state, zoneIndex);
      log := LogBytes(device.state, Abs());
    }

    ghost function Abs(): HandleState
      reads this
    {
      HandleState(zoneIndex, start, len, capacity, writePointer)
    }

    /** The device and the handle on it. */
    ghost function Now(): Pair
      reads this, device
    {
      (device.state, Abs())
    }

    ghost predicate Valid()
      reads this, device
    {
      && device.Valid()
      && ValidPair(device.state, Abs())
      && log == LogBytes(device.state, Abs())
    }

    /** The call was event `e` from device state `s` and handle state `h`. */
    ghost predicate Did(s: DeviceState, h: HandleState, e: HandleEvent)
      reads this, device
    {
      && ValidState(s) && Enabled(s, h, e)
      && device.state == DevAfter(s, h, e)
      && Abs() == HandleAfter(h, e)
    }

    /** A handle for zone `zoneIndex`, its pointer taken from a fresh report of that zone. */
    static method New(device: ZonedDevice, zoneIndex: u32, allocator: Option<AllocatorInner>)
      returns (r: Result<ZoneHandle>)
      requires device.Valid()
      ensures r.Ok? ==>
                && fresh(r.value) && r.value.Valid()
                && r.value.device == device && r.value.allocator == allocator
                && zoneIndex < |device.state.zones|
                && r.value.Abs() == Opened(zoneIndex, Descriptors(device.state)[zoneIndex])
      ensures r.Err? ==> (r.error.FromDevice() && !device.reliable) || NoSuchZone(device.state, zoneIndex, r.error)
    {
      var info := device.GetDeviceInfo();
      if info.Err? {
        return Err(info.error);
      }
      IndexTimesSize(device.state.zones, zoneIndex);
      if info.value.zoneSize * zoneIndex >= U64_END {
        return Err(Overflow);
      }
      var zoneStart: u64 := info.value.zoneSize * zoneIndex;
      var zones := device.ReportZones(zoneStart, 1);
      if zones.Err? {
        return Err(zones.error);
      }
      if zones.value == [] {
        return Err(InvalidRange(zoneStart, 0));
      }
      assert zones.value[0] == Descriptors(device.state)[zoneIndex];
      var handle := new ZoneHandle(device, zoneIndex, zones.value[0], allocator);
      return Ok(handle);
    }

    /** Offers `buf` at the pointer and advances the pointer by the whole sectors accepted. */
    method WriteSequential(buf: seq<byte>) returns (r: Result<nat>)
      requires Valid()
      modifies this`writePointer, this`log, device
      ensures Valid()
      ensures r.Ok? ==>
                && r.value <= |buf|
                && Did(old(device.state), old(Abs()), Wrote(buf, r.value))
                && (r.value % SECTOR_SIZE == 0 ==> log == old(log) + buf[..r.value])
                && (device.progressive && |buf| > 0 ==> r.value > 0)
      ensures r.Err? ==> Did(old(device.state), old(Abs()), Failed) && log == old(log)
      ensures device.reliable && device.writable && TakesWrites(old(device.state), old(Abs())) ==> r.Ok?
      ensures old(writePointer) < start + capacity ==>
                device.TakesIfItCan(old(device.state), old(writePointer), |buf|, r)
      ensures r == Err(ZoneFull(zoneIndex)) <==> old(writePointer) >= start + capacity
      ensures r.Err? ==> r.error == ZoneFull(zoneIndex) || r.error.FromDevice()
    {
      var capacityEnd: u64 := CapacityEndOf();
      NothingEnabled(device.state, Abs(), buf);
      if writePointer >= capacityEnd {
        return Err(ZoneFull(zoneIndex));
      }
      r := device.WriteAt(writePointer, buf);
      if r.Ok? {
        WroteLog(old(device.state), old(Abs()), buf, r.value);
        writePointer := writePointer + r.value / SECTOR_SIZE;
        log := LogBytes(device.state, Abs());
      }
    }

    method WritevSequential(bufs: seq<seq<byte>>) returns (r: Result<nat>)
      requires Valid()
      modifies this`writePointer, this`log, device
      ensures Valid()
      ensures r.Ok? ==>
                && r.value <= |Flatten(bufs)|
                && Did(old(device.state), old(Abs()), Wrote(Flatten(bufs), r.value))
                && (r.value % SECTOR_SIZE == 0 ==> log == old(log) + Flatten(bufs)[..r.value])
                && (device.progressive && |Flatten(bufs)| > 0 ==> r.value > 0)
      ensures r.Err? ==> Did(old(device.state), old(Abs()), Failed) && log == old(log)
      ensures device.reliable && device.writable && TakesWrites(old(device.state), old(Abs())) ==> r.Ok?
      ensures old(writePointer) < start + capacity ==>
                device.TakesIfItCan(old(device.state), old(writePointer), |Flatten(bufs)|, r)
      ensures r == Err(ZoneFull(zoneIndex)) <==> old(writePointer) >= start + capacity
      ensures r.Err? ==> r.error == ZoneFull(zoneIndex) || r.error.FromDevice()
    {
      var capacityEnd: u64 := CapacityEndOf();
      NothingEnabled(device.state, Abs(), Flatten(bufs));
      if writePointer >= capacityEnd {
        return Err(ZoneFull(zoneIndex));
      }
      r := device.WritevAt(writePointer, bufs);
      if r.Ok? {
        WroteLog(old(device.state), old(Abs()), Flatten(bufs), r.value);
        writePointer := writePointer + r.value / SECTOR_SIZE;
        log := LogBytes(device.state, Abs());
      }
    }

    method CapacityEndOf() returns (e: u64)
      requires Valid()
      ensures e == start + capacity
    {
      assert ValidAt(device.state.zones, zoneIndex);
      ZoneInside(device.state, zoneIndex);
      e := start + capacity;
    }

    /** The next write of the loop of `write_all_sequential`, and how far it took the loop. */
    method WriteRest(remaining: seq<byte>, ghost s: DeviceState, ghost h: HandleState, ghost buf: seq<byte>,
                     ghost cuts: seq<nat>)
      returns (r: Result<nat>, ghost more: seq<nat>)
      requires Valid() && remaining != []
      requires Writing(s, h, buf, cuts, (device.state, Abs())) && remaining == Rest(buf, cuts)
      modifies this`writePointer, this`log, device
      ensures Valid() && Writing(s, h, buf, more, (device.state, Abs()))
      ensures r.Ok? ==>
                && r.value <= |remaining| && remaining[r.value..] == Rest(buf, more)
                && (r.value == 0 ==> Stalls((device.state, Abs()), remaining) && !device.progressive)
      ensures r.Err? ==>
                && Rest(buf, more) == remaining && Stops((device.state, Abs()), remaining, Err(r.error))
                && (if writePointer >= start + capacity then r.error == ZoneFull(zoneIndex) else r.error.FromDevice())
                && (device.reliable && device.writable ==> !TakesWrites(device.state, Abs()))
    {
      hide Run, Exec, TakesWrites;
      ghost var now := (device.state, Abs());
      more := cuts;
      r := WriteSequential(remaining);
      if r.Ok? {
        if r.value == 0 {
          ZeroWrite(now.0, now.1, remaining);
        } else {
          more := cuts + [Last(cuts) + r.value];
          WritingMore(s, h, buf, cuts, now, remaining, r.value, (device.state, Abs()), more);
        }
      }
    }

    /** Writes all of `buf`: an execution of the loop of HandleModel, whose calls stopped at `cuts`. On a
        dependable device it goes on until all is written or the zone takes no more, and so a buffer of whole
        sectors is written if there is room for it, and otherwise, in step, the zone is filled. */
    method WriteAllSequential(buf: seq<byte>) returns (r: Result<()>, ghost cuts: seq<nat>)
      requires Valid()
      modifies this`writePointer, this`log, device
      ensures Valid()
      ensures WriteAll(old(device.state), old(Abs()), buf, cuts, r)
      ensures (device.state, Abs()) == Exec(old(device.state), old(Abs()), Pieces(buf, cuts))
      ensures r.Err? && device.progressive ==>
                if writePointer >= start + capacity then r.error == ZoneFull(zoneIndex) else r.error.FromDevice()
      ensures r.Err? && device.Dependable() ==> !TakesWrites(device.state, Abs())
      ensures device.Dependable() && HasRoom(old(device.state), old(Abs()), buf) ==> r == Ok(())
      ensures device.Dependable() && InStep(old(device.state), old(Abs())) && TooLong(old(Abs()), buf) ==>
                && r == Err(ZoneFull(zoneIndex))
                && (old(writePointer) < start + capacity ==> writePointer == start + capacity)
    {
      hide TakesWrites, HasRoom, InStep;
      ghost var s, h := device.state, Abs();
      var remaining := buf;
      r, cuts := Ok(()), StartCuts();
      CutsStart(buf, cuts);
      while remaining != []
        invariant Valid() && r == Ok(())
        invariant Writing(s, h, buf, cuts, (device.state, Abs())) && remaining == Rest(buf, cuts)
        decreases |remaining|
      {
        var written;
        written, cuts := WriteRest(remaining, s, h, buf, cuts);
        if written.Err? {
          r := Err(written.error);
          break;
        }
        if written.value == 0 {
          r := Err(ZoneFull(zoneIndex));
          break;
        }
        remaining := remaining[written.value..];
      }
      WriteAllEnds(s, h, buf, cuts, r, (device.state, Abs()));
    }

    method Reset() returns (r: Result<()>)
      requires Valid()
      modifies this`writePointer, this`log, device
      ensures Valid()
      ensures r.Ok? ==>
                Did(old(device.state), old(Abs()), Commanded(ZoneCommand.Reset)) && writePointer == start && log == []
      ensures r.Ok? ==> Isolated(old(device.state), zoneIndex)
      ensures r.Ok? && old(device.state.zones[zoneIndex]).HasWritePointer() ==>
                device.state.zones[zoneIndex].condition.Empty? && InStep(device.state, Abs())
      ensures r.Err? ==> Did(old(device.state), old(Abs()), Failed) && log == old(log) && r.error.FromDevice()
      ensures r.Err? && device.reliable ==>
                |device.state.zones| > 1 && !old(device.state.zones[zoneIndex]).HasWritePointer()
    {
      OwnRange(device.state, Abs());
      ResetIsolated(device.state, Abs());
      ghost var done;
      r, done := device.ResetZones(start, len);
      OwnCommand(old(device.state), old(Abs()), ZoneCommand.Reset, done);
      if r.Ok? {
        writePointer := start;
      }
      log := LogBytes(device.state, Abs());
    }

    /** `open` and `close`. */
    method Manage(c: ZoneCommand) returns (r: Result<()>)
      requires Valid() && (c.Open? || c.Close?)
      modifies this`log, device
      ensures Valid() && log == old(log)
      ensures r.Ok? ==> Did(old(device.state), old(Abs()), Commanded(c))
      ensures r.Ok? && old(device.state.zones[zoneIndex]).Active() ==>
                var before, now := old(device.state.zones[zoneIndex]).condition, device.state.zones[zoneIndex].condition;
                now == if c.Open? then ExplicitlyOpen else if before.Empty? then Empty else Closed
      ensures r.Err? ==> Did(old(device.state), old(Abs()), Failed) && r.error.FromDevice()
      ensures device.reliable ==> (r.Ok? <==> old(device.state.zones[zoneIndex]).HasWritePointer())
    {
      OwnRange(device.state, Abs());
      ghost var done;
      r, done := device.CommandZones(c, start, len);
      OwnCommand(old(device.state), old(Abs()), c, done);
    }

    method Finish() returns (r: Result<()>)
      requires Valid()
      modifies this`writePointer, this`log, device
      ensures Valid()
      ensures r.Ok? ==> Did(old(device.state), old(Abs()), Commanded(ZoneCommand.Finish)) && writePointer == start + len
      ensures r.Ok? ==> device.state.zones[zoneIndex].condition.Full?
      ensures r.Err? ==> Did(old(device.state), old(Abs()), Failed) && log == old(log) && r.error.FromDevice()
      ensures device.reliable ==> (r.Ok? <==> old(device.state.zones[zoneIndex]).HasWritePointer())
    {
      OwnRange(device.state, Abs());
      ghost var done;
      r, done := device.CommandZones(ZoneCommand.Finish, start, len);
      OwnCommand(old(device.state), old(Abs()), ZoneCommand.Finish, done);
      if r.Ok? {
        writePointer := start + len;
      }
      log := LogBytes(device.state, Abs());
    }

    /** Dropping the handle gives its own index back, if an allocator issued it. */
    method Drop()
      modifies if allocator.Some? then {allocator.value} else {}
      ensures allocator.Some? ==> allocator.value.inUse == old(allocator.value.inUse) - {zoneIndex}
    {
      if allocator.Some? {
        allocator.value.Release(zoneIndex);
      }
    }
  }

  /** How a handle for an index that names no zone fails: by an empty report, or where the product of index
      and zone size leaves 64 bits. */
  predicate NoSuchZone(s: DeviceState, zoneIndex: nat, error: ZonedError) {
    && zoneIndex >= |s.zones| > 0
    && if s.zones[0].len * zoneIndex < U64_END then error == InvalidRange(s.zones[0].len * zoneIndex, 0) else error == Overflow
  }

  /** The handle made from a reported zone. */
  function Opened(zoneIndex: nat, zone: Zone): HandleState {
    HandleState(zoneIndex, zone.start, zone.len, zone.capacity,
                if zone.writePointer.Some? then zone.writePointer.value else zone.start)
  }

  /** A handle opened on a zone takes its geometry, and its pointer where the zone has one and the report
      shows it, otherwise its start; on a sequential zone with a meaningful pointer it starts in step exactly
      when the report did not hide a full zone's pointer. */
  lemma OpenedValid(s: DeviceState, i: nat)
    requires ValidState(s) && i < |s.zones|
    ensures ValidPair(s, Opened(i, Descriptors(s)[i]))
    ensures s.zones[i].HasWritePointer() ==>
              (InStep(s, Opened(i, Descriptors(s)[i])) <==> !(s.sentinel && s.zones[i].condition.Full?))
    ensures var z, shown := s.zones[i], !(s.sentinel && s.zones[i].condition.Full?);
            var pointer := if z.writePointer.Some? && shown then z.writePointer.value else z.start;
            Opened(i, Descriptors(s)[i]) == HandleState(i, z.start, z.len, z.capacity, pointer)
  {
    assert ValidAt(s.zones, i);
    Ordered(s.zones);
  }

  /** What the end of the loop says of a buffer for which the zone has room, and of one too long for it. */
  lemma WriteAllEnds(s: DeviceState, h: HandleState, buf: seq<byte>, cuts: seq<nat>, r: Result<()>, now: Pair)
    requires ValidPair(s, h) && WriteAll(s, h, buf, cuts, r) && now == Exec(s, h, Pieces(buf, cuts))
    ensures HasRoom(s, h, buf) && r.Err? ==> TakesWrites(now.0, now.1)
    ensures InStep(s, h) && TooLong(h, buf) ==>
              && r.Err?
              && (TakesWrites(now.0, now.1) || now.1.writePointer >= now.1.CapacityEnd())
              && (!TakesWrites(now.0, now.1) && h.writePointer < h.CapacityEnd() ==>
                    now.1.writePointer == h.CapacityEnd())
  {
    hide Run, Exec, ValidState, TakesWrites, InStep;
    if HasRoom(s, h, buf) {
      WriteAllSucceeds(s, h, buf, cuts, r);
    }
    if InStep(s, h) && TooLong(h, buf) {
      WriteAllFills(s, h, buf, cuts, r);
      PiecesAreWhole(s, h, buf, cuts);
    }
  }

  lemma WroteLog(s: DeviceState, h: HandleState, buf: seq<byte>, n: nat)
    requires ValidPair(s, h) && Enabled(s, h, Wrote(buf, n))
    ensures ValidPair(DevAfter(s, h, Wrote(buf, n)), HandleAfter(h, Wrote(buf, n)))
    ensures n % SECTOR_SIZE == 0 ==>
              LogBytes(DevAfter(s, h, Wrote(buf, n)), HandleAfter(h, Wrote(buf, n))) == LogBytes(s, h) + buf[..n]
  {
    EventValid(s, h, Wrote(buf, n));
    if n % SECTOR_SIZE == 0 {
      EventLog(s, h, Wrote(buf, n));
    }
  }

  lemma ZeroWrite(s: DeviceState, h: HandleState, buf: seq<byte>)
    requires ValidPair(s, h) && Enabled(s, h, Wrote(buf, 0))
    ensures DevAfter(s, h, Wrote(buf, 0)) == s && HandleAfter(h, Wrote(buf, 0)) == h
  {
    assert buf[..0] == [];
    NothingWritten(s, h.writePointer);
  }

  /** The handle's own range is valid and holds exactly its own zone. */
  lemma OwnRange(s: DeviceState, h: HandleState)
    requires ValidPair(s, h)
    ensures RangeIsValid(h.start, h.len)
    ensures RangeLo(s.zones, h.start) == h.index && RangeHi(s.zones, h.start, h.len) == h.index + 1
  {
    RangeOfZone(s.zones, h.index);
    ZoneInside(s, h.index);
  }

  /** The reset of one zone takes the reset-all path only on a device of that one zone; otherwise the zone
      must accept the command, which no conventional zone does. */
  lemma ResetIsolated(s: DeviceState, h: HandleState)
    requires ValidPair(s, h)
    ensures CoversDevice(s.zones, h.start, h.len) || AllAccept(s.zones, h.index, h.index + 1) ==> Isolated(s, h.index)
  {
    assert ValidAt(s.zones, h.index) && UniformAt(s.zones, h.index);
    if |s.zones| > 1 {
      ProductMonotone(s.zones[0].len, 2, |s.zones|);
    }
    assert AllAccept(s.zones, h.index, h.index + 1) ==> Accepts(s.zones[h.index]);
  }

  /** A range command on the handle's own range is the command on its zone, or nothing. */
  lemma OwnCommand(s: DeviceState, h: HandleState, c: ZoneCommand, done: nat)
    requires ValidPair(s, h) && h.index <= done <= h.index + 1
    ensures CommandRange(s, c, h.index, done) == if done == h.index then s else DevAfter(s, h, Commanded(c))
    ensures ValidPair(DevAfter(s, h, Commanded(c)), HandleAfter(h, Commanded(c)))
    ensures !c.Finish? ==>
              LogBytes(DevAfter(s, h, Commanded(c)), HandleAfter(h, Commanded(c))) == if c.Reset? then [] else LogBytes(s, h)
  {
    EventValid(s, h, Commanded(c));
    CommandRangeEmpty(s, c, h.index);
    CommandRangeStep(s, c, h.index, h.index);
    if !c.Finish? {
      EventLog(s, h, Commanded(c));
    }
  }
}
