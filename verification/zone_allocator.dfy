/** The shared set of allocated zone indices. */
module AllocatorInners {
  import opened ZonedTypes

  class AllocatorInner {
    var inUse: set<nat>

    constructor ()
      ensures inUse == {}
    {
      inUse := {};
    }

    method Release(zoneIndex: u32)
      modifies this
      ensures inUse == old(inUse) - {zoneIndex}
    {
      inUse := inUse - {zoneIndex};
    }

    method TryAllocate(zoneIndex: u32) returns (r: Result<()>)
      modifies this
      ensures zoneIndex in old(inUse) ==> r == Err(ZoneAlreadyAllocated(zoneIndex)) && inUse == old(inUse)
      ensures zoneIndex !in old(inUse) ==> r.Ok? && inUse == old(inUse) + {zoneIndex}
    {
      if zoneIndex in inUse {
        return Err(ZoneAlreadyAllocated(zoneIndex));
      }
      inUse := inUse + {zoneIndex};
      return Ok(());
    }
  }
}

/** `ZoneAllocator` when nothing interferes between its steps; ZoneSystem has the interleavings. */
module ZoneAllocators {
  import opened ZonedTypes
  import opened DeviceModel
  import opened ZonedDevices
  import opened HandleModel
  import opened AllocatorInners
  import opened ZoneHandles

  /** `allocate` may hand out zone `i`, reported as `zone`. */
  predicate Allocatable(zone: Zone, i: nat, inUse: set<nat>) {
    zone.zoneType.SequentialWriteRequired? && zone.condition.Empty? && i !in inUse
  }

  /** Every empty sequential-write-required zone among the first `n` is in use. */
  ghost predicate NoneFree(zones: seq<Zone>, n: nat, inUse: set<nat>) {
    forall j :: 0 <= j < n <= |zones| ==>
      zones[j].zoneType == SequentialWriteRequired && zones[j].condition == Empty ==> j in inUse
  }

  class ZoneAllocator {
    const device: ZonedDevice
    const inner: AllocatorInner

    constructor (device: ZonedDevice)
      ensures this.device == device && fresh(inner) && inner.inUse == {}
    {
      this.device := device;
      inner := new AllocatorInner();
    }

    /** Reserves index `zoneIndex` and opens a handle on it; a failure leaves the set as it was, except that
        an overflow aborts the call before the rollback. */
    method AllocateZone(zoneIndex: u32) returns (r: Result<ZoneHandle>)
      requires device.Valid()
      modifies inner
      ensures device.Valid() && device.state == old(device.state)
      ensures zoneIndex in old(inner.inUse) ==> r == Err(ZoneAlreadyAllocated(zoneIndex))
      ensures r.Err? ==> inner.inUse == if r.error.Overflow? then old(inner.inUse) + {zoneIndex} else old(inner.inUse)
      ensures r.Err? && zoneIndex !in old(inner.inUse) ==>
                (r.error.FromDevice() && !device.reliable) || NoSuchZone(device.state, zoneIndex, r.error)
      ensures r.Ok? ==>
                && zoneIndex !in old(inner.inUse) && inner.inUse == old(inner.inUse) + {zoneIndex}
                && fresh(r.value) && r.value.Valid() && r.value.device == device && r.value.allocator == Some(inner)
                && zoneIndex < |device.state.zones| && r.value.Abs() == Opened(zoneIndex, Descriptors(device.state)[zoneIndex])
    {
      var reserved := inner.TryAllocate(zoneIndex);
      if reserved.Err? {
        return Err(reserved.error);
      }
      r := ZoneHandle.New(device, zoneIndex, Some(inner));
      if r.Err? && !r.error.Overflow? {
        inner.Release(zoneIndex);
      }
    }

    /** A handle, in step with its device zone and at its start, for the lowest-index empty
        sequential-write-required zone not in use; unless the device fails, exactly where there is one. */
    method Allocate() returns (r: Result<ZoneHandle>)
      requires device.Valid()
      modifies inner
      ensures device.Valid() && device.state == old(device.state)
      ensures r.Ok? ==>
                var i := r.value.zoneIndex;
                && i < |device.state.zones|
                && device.state.zones[i].zoneType == SequentialWriteRequired && device.state.zones[i].condition == Empty
                && i !in old(inner.inUse)
                && NoneFree(device.state.zones, i, old(inner.inUse))
                && inner.inUse == old(inner.inUse) + {i}
                && fresh(r.value) && r.value.Valid() && r.value.device == device && r.value.allocator == Some(inner)
                && InStep(device.state, r.value.Abs()) && r.value.writePointer == r.value.start
      ensures r.Err? ==> inner.inUse == old(inner.inUse) && (r.error.FromDevice() || r.error == InvalidRange(0, 0))
      ensures NoneFree(device.state.zones, |device.state.zones|, old(inner.inUse)) ==> r.Err?
      ensures r == Err(InvalidRange(0, 0)) ==> NoneFree(device.state.zones, |device.state.zones|, old(inner.inUse))
      ensures r.Err? && device.reliable ==> r == Err(InvalidRange(0, 0))
    {
      var zones := device.ReportAllZones(512);
      if zones.Err? {
        return Err(zones.error);
      }
      var i: u32 := 0;
      while i < |zones.value|
        invariant i <= |zones.value| && inner.inUse == old(inner.inUse)
        invariant forall j :: 0 <= j < i ==> !Allocatable(zones.value[j], j, inner.inUse)
      {
        if Allocatable(zones.value[i], i, inner.inUse) {
          IndexTimesSize(device.state.zones, i);
          ZoneInside(device.state, i);
          OpenedValid(device.state, i);
          assert ValidAt(device.state.zones, i);
          r := AllocateZone(i);
          return;
        }
        i := i + 1;
      }
      return Err(InvalidRange(0, 0));
    }

    /** Takes an index out of the set, whoever holds its handle. */
    method Release(zoneIndex: u32) returns (r: Result<()>)
      modifies inner
      ensures inner.inUse == old(inner.inUse) - {zoneIndex}
      ensures r == if zoneIndex in old(inner.inUse) then Ok(()) else Err(ZoneNotAllocated(zoneIndex))
    {
      if zoneIndex in inner.inUse {
        inner.inUse := inner.inUse - {zoneIndex};
        return Ok(());
      }
      return Err(ZoneNotAllocated(zoneIndex));
    }
  }

  /** A device of one zone, of any length. */
  lemma OneZone(s: DeviceState, z: Zone)
    requires s.zones == [z] && z.start == 0 && z.Valid() && |s.data| == SECTOR_SIZE * z.len < U64_END
    ensures ValidState(s)
  {
  }

  /** The overflow can happen: for every zone length from 2^32 + 2 on that fits a device, there are a device
      and a 32-bit index whose product leaves 64 bits. */
  lemma SomeIndexOverflows(len: nat) returns (s: DeviceState, zoneIndex: u32)
    requires U32_END + 2 <= len && SECTOR_SIZE * len < U64_END
    ensures ValidState(s) && s.zones[0].len == len && len * zoneIndex >= U64_END
    ensures NoSuchZone(s, zoneIndex, Overflow)
  {
    var z := Zone(0, len, len, Some(0), SequentialWriteRequired, Empty);
    s := DeviceState([z], Fill(SECTOR_SIZE * len, 0), 0, false);
    OneZone(s, z);
    zoneIndex := U32_END - 1;
    ProductMonotone(U32_END - 1, U32_END + 2, len);
    assert (U32_END - 1) * (U32_END + 2) >= U64_END;
  }
}
