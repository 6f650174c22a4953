/** The benchmark's loop that fills one zone. */
module Benches {
  import opened ZonedTypes
  import opened DeviceModel
  import opened ZonedDevices
  import opened HandleModel
  import opened ZoneHandles
  import opened ZoneAllocators

  /** Beginnings of `buf`, of these lengths, one behind the other. */
  function Beginnings(buf: seq<byte>, counts: seq<nat>): seq<byte> {
    if counts == [] then [] else
      var last := counts[|counts| - 1];
      Beginnings(buf, counts[..|counts| - 1]) + if last <= |buf| then buf[..last] else []
  }

  lemma OneMoreBeginning(buf: seq<byte>, counts: seq<nat>, n: nat)
    requires n <= |buf|
    ensures Beginnings(buf, counts + [n]) == Beginnings(buf, counts) + buf[..n]
  {
    assert (counts + [n])[..|counts + [n]| - 1] == counts;
  }

  /** The handle has written `zoneBytes` bytes since the zone's start, in writes that each took the first
      bytes of `buf`, `counts` of them, and is in step. */
  ghost predicate Filling(x: Pair, log: seq<byte>, zoneBytes: nat, buf: seq<byte>, counts: seq<nat>) {
    && ValidPair(x.0, x.1) && InStep(x.0, x.1)
    && log == LogBytes(x.0, x.1) && |log| == zoneBytes
    && x.1.writePointer <= x.1.CapacityEnd()
    && log == Beginnings(buf, counts)
  }

  lemma FillingGoesOn(x: Pair, log: seq<byte>, zoneBytes: nat, buf: seq<byte>, counts: seq<nat>,
                      writeLen: nat, n: nat, y: Pair)
    requires Filling(x, log, zoneBytes, buf, counts) && writeLen <= |buf| && writeLen % SECTOR_SIZE == 0
    requires Enabled(x.0, x.1, Wrote(buf[..writeLen], n))
    requires y == (DevAfter(x.0, x.1, Wrote(buf[..writeLen], n)), HandleAfter(x.1, Wrote(buf[..writeLen], n)))
    ensures n <= writeLen && n % SECTOR_SIZE == 0 && Filling(y, log + buf[..n], zoneBytes + n, buf, counts + [n])
  {
    var e := Wrote(buf[..writeLen], n);
    EventValid(x.0, x.1, e);
    EventKeepsStep(x.0, x.1, e);
    EventLog(x.0, x.1, e);
    EventBounded(x.0, x.1, e);
    assert buf[..writeLen][..n] == buf[..n];
    OneMoreBeginning(buf, counts, n);
  }

  /** At the capacity the zone is full. */
  lemma FilledZone(x: Pair, log: seq<byte>, zoneBytes: nat, buf: seq<byte>, counts: seq<nat>)
    requires Filling(x, log, zoneBytes, buf, counts) && zoneBytes >= SECTOR_SIZE * x.1.capacity
    ensures zoneBytes == SECTOR_SIZE * x.1.capacity && x.1.writePointer == x.1.CapacityEnd()
    ensures x.0.zones[x.1.index].condition.Full?
  {
    assert ValidAt(x.0.zones, x.1.index);
  }

  /** One write of the loop, single or gathered from two halves. */
  method WriteOnce(handle: ZoneHandle, buf: seq<byte>, useWritev: bool) returns (r: Result<nat>)
    requires handle.Valid()
    modifies handle`writePointer, handle`log, handle.device
    ensures handle.Valid()
    ensures r.Ok? ==>
              && r.value <= |buf|
              && handle.Did(old(handle.device.state), old(handle.Abs()), Wrote(buf, r.value))
              && (r.value % SECTOR_SIZE == 0 ==> handle.log == old(handle.log) + buf[..r.value])
              && (handle.device.progressive && |buf| > 0 ==> r.value > 0)
    ensures r.Err? ==> r.error.FromDevice() || old(handle.writePointer) >= handle.start + handle.capacity
    ensures r.Err? && handle.device.Dependable() ==> !TakesWrites(old(handle.device.state), old(handle.Abs()))
    ensures old(handle.writePointer) < handle.start + handle.capacity ==>
              handle.device.TakesIfItCan(old(handle.device.state), old(handle.writePointer), |buf|, r)
  {
    if useWritev {
      var mid := |buf| / 2;
      var bufs := [buf[..mid], buf[mid..]];
      assert Flatten(bufs[1..]) == buf[mid..];
      assert Flatten(bufs) == buf;
      r := handle.WritevSequential(bufs);
    } else {
      r := handle.WriteSequential(buf);
    }
  }

  /** One round of the loop: writes as much of the buffer as the zone has left to take. */
  method FillMore(handle: ZoneHandle, buf: seq<byte>, useWritev: bool, zoneBytes: nat, ghost counts: seq<nat>)
    returns (r: Result<nat>)
    requires handle.Valid() && handle.device.progressive && |buf| > 0 && |buf| % SECTOR_SIZE == 0
    requires Filling((handle.device.state, handle.Abs()), handle.log, zoneBytes, buf, counts)
    requires zoneBytes < SECTOR_SIZE * handle.capacity
    modifies handle`writePointer, handle`log, handle.device
    ensures handle.Valid()
    ensures r.Err? ==> r.error.FromDevice() && !handle.device.Dependable()
    ensures r.Ok? && handle.device.eager ==> r.value == |buf| || r.value == SECTOR_SIZE * handle.capacity - zoneBytes
    ensures r.Ok? ==>
              && 0 < r.value <= SECTOR_SIZE * handle.capacity - zoneBytes
              && Filling((handle.device.state, handle.Abs()), handle.log, zoneBytes + r.value, buf, counts + [r.value])
  {
    hide Filling, ValidState, Aligned, ValidPair, InStep, LogBytes, Enabled, DevAfter, HandleAfter;
    hide TakesWrites, MostAccepted, WriteAllowed;
    ghost var x, log := handle.Now(), handle.log;
    RoomLeft(x, log, zoneBytes, buf, counts);
    var remaining := SECTOR_SIZE * handle.capacity - zoneBytes;
    var writeLen := if remaining < |buf| then remaining else |buf|;
    FitsZone(x, log, zoneBytes, buf, counts, writeLen);
    r := WriteOnce(handle, buf[..writeLen], useWritev);
    if r.Ok? {
      FillingGoesOn(x, log, zoneBytes, buf, counts, writeLen, r.value, handle.Now());
      assert buf[..writeLen][..r.value] == buf[..r.value];
    }
  }

  lemma RoomLeft(x: Pair, log: seq<byte>, zoneBytes: nat, buf: seq<byte>, counts: seq<nat>)
    requires Filling(x, log, zoneBytes, buf, counts) && zoneBytes < SECTOR_SIZE * x.1.capacity
    ensures zoneBytes % SECTOR_SIZE == 0 && x.1.writePointer < x.1.CapacityEnd()
  {
    assert |LogBytes(x.0, x.1)| == SECTOR_SIZE * (x.1.writePointer - x.1.start);
  }

  /** The zone takes a write of no more than what is left, all of it at once if the device does. */
  lemma FitsZone(x: Pair, log: seq<byte>, zoneBytes: nat, buf: seq<byte>, counts: seq<nat>, n: nat)
    requires Filling(x, log, zoneBytes, buf, counts) && x.1.writePointer < x.1.CapacityEnd()
    requires zoneBytes + n <= SECTOR_SIZE * x.1.capacity && n % SECTOR_SIZE == 0
    ensures TakesWrites(x.0, x.1) && WriteAllowed(x.0, x.1.writePointer, n, 0)
    ensures MostAccepted(x.0, x.1.writePointer, n) == n
  {
    InStepTakes(x.0, x.1);
    NothingEnabled(x.0, x.1, Fill(n, 0));
    assert |LogBytes(x.0, x.1)| == SECTOR_SIZE * (x.1.writePointer - x.1.start);
    EnabledCounts(x.0, x.1, Fill(n, 0), n);
    MostIsAllowed(x.0, x.1.writePointer, n);
  }

  /** Fills a freshly reset zone: the loop ends, the only errors are the device's, and it ends exactly
      at the capacity, in a full zone holding beginnings of the buffer, one behind the other. */
  method FillZone(handle: ZoneHandle, buf: seq<byte>, useWritev: bool) returns (r: Result<nat>, ghost counts: seq<nat>)
    requires handle.Valid() && handle.device.progressive
    requires InStep(handle.device.state, handle.Abs()) && handle.writePointer == handle.start
    requires |buf| > 0 && |buf| % SECTOR_SIZE == 0
    modifies handle`writePointer, handle`log, handle.device
    ensures handle.Valid()
    ensures r.Err? ==> r.error.FromDevice() && !handle.device.Dependable()
    ensures r.Ok? ==>
              && r.value == SECTOR_SIZE * handle.capacity
              && handle.writePointer == handle.start + handle.capacity
              && handle.device.state.zones[handle.zoneIndex].condition.Full?
              && |handle.log| == SECTOR_SIZE * handle.capacity
              && handle.log == Beginnings(buf, counts)
  {
    var capacityBytes := handle.capacity * SECTOR_SIZE;
    var zoneBytes := 0;
    counts := [];
    while zoneBytes < capacityBytes
      invariant handle.Valid()
      invariant Filling((handle.device.state, handle.Abs()), handle.log, zoneBytes, buf, counts)
    {
      var written := FillMore(handle, buf, useWritev, zoneBytes, counts);
      if written.Err? {
        return Err(written.error), counts;
      }
      zoneBytes := zoneBytes + written.value;
      counts := counts + [written.value];
    }
    FilledZone((handle.device.state, handle.Abs()), handle.log, zoneBytes, buf, counts);
    return Ok(zoneBytes), counts;
  }

  /** What the benchmark does with each zone: allocate it, reset it, fill it. */
  method AllocateAndFill(allocator: ZoneAllocator, buf: seq<byte>, useWritev: bool)
    returns (r: Result<nat>, handle: Option<ZoneHandle>, ghost counts: seq<nat>)
    requires allocator.device.Valid() && allocator.device.progressive && |buf| > 0 && |buf| % SECTOR_SIZE == 0
    modifies allocator.inner, allocator.device
    ensures allocator.device.Valid()
    ensures r.Ok? ==>
              && handle.Some? && fresh(handle.value) && handle.value.Valid() && handle.value.device == allocator.device
              && handle.value.zoneIndex !in old(allocator.inner.inUse)
              && NoneFree(old(allocator.device.state).zones, handle.value.zoneIndex, old(allocator.inner.inUse))
              && allocator.inner.inUse == old(allocator.inner.inUse) + {handle.value.zoneIndex}
              && r.value == SECTOR_SIZE * handle.value.capacity == |handle.value.log|
              && handle.value.writePointer == handle.value.start + handle.value.capacity
              && allocator.device.state.zones[handle.value.zoneIndex].condition.Full?
              && handle.value.log == Beginnings(buf, counts)
    ensures r.Err? ==> r.error.FromDevice() || (r.error == InvalidRange(0, 0) && handle.None?)
    ensures r.Err? && allocator.device.Dependable() ==>
              NoneFree(old(allocator.device.state).zones, |old(allocator.device.state).zones|, old(allocator.inner.inUse))
  {
    handle, counts := None, [];
    var made := allocator.Allocate();
    if made.Err? {
      return Err(made.error), None, [];
    }
    var h := made.value;
    ghost var x := h.Now();
    var reset := h.Reset();
    if reset.Err? {
      return Err(reset.error), Some(h), [];
    }
    EventKeepsStep(x.0, x.1, Commanded(ZoneCommand.Reset));
    r, counts := FillZone(h, buf, useWritev);
    handle := Some(h);
  }
}
