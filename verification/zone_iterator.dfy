/** The lazy, batched zone iterator and the filtered report built on it. */
module ZoneIterators {
  import opened ZonedTypes
  import opened DeviceModel
  import opened ZonedDevices

  class ZoneIterator {
    const device: ZonedDevice
    const batchSize: nat
    var buffer: seq<Zone>
    var bufPos: nat
    var nextSector: nat
    var done: bool
    /** Zones yielded so far. */
    ghost var yielded: seq<Zone>

    constructor (device: ZonedDevice, batchSize: nat)
      requires device.Valid()
      ensures Valid() && this.device == device && yielded == [] && !done
    {
      this.device := device;
      this.batchSize := if batchSize == 0 then 512 else batchSize;
      buffer, bufPos, nextSector, done := [], 0, 0, false;
      yielded := [];
    }

    ghost predicate Valid()
      reads this, device
    {
      && device.Valid()
      && batchSize > 0
      && bufPos <= |buffer|
      && Tracks(device.state, yielded, buffer[bufPos..], nextSector, done)
    }

    /** Yields the next zone of the device's list; after the last one, nothing; a failing report once,
        and nothing after that. */
    method Next() returns (r: Option<Result<Zone>>)
      requires Valid()
      modifies this
      ensures Valid()
      ensures Yields(Descriptors(device.state), old(yielded), old(done), r, yielded, done)
      ensures r.Some? && r.value.Err? ==> !device.reliable
    {
      if bufPos < |buffer| {
        YieldPending(device.state, yielded, buffer[bufPos..], nextSector, done);
        r := Some(Ok(buffer[bufPos]));
        bufPos := bufPos + 1;
        yielded := yielded + [r.value.value];
      } else if done {
        r := None;
      } else {
        r := NextBatch();
      }
    }

    /** The part of `next` that fetches a batch. */
    method NextBatch() returns (r: Option<Result<Zone>>)
      requires Valid() && bufPos == |buffer| && !done
      modifies this
      ensures Valid()
      ensures Yields(Descriptors(device.state), old(yielded), false, r, yielded, done)
      ensures r.Some? && r.value.Err? ==> !device.reliable
    {
      hide ValidState, Aligned, Tracks, Descriptors, IndexOf;
      assert buffer[bufPos..] == [];
      FetchFailed(device.state, nextSector, yielded);
      var zones := device.ReportZones(nextSector, batchSize);
      if zones.Err? {
        done := true;
        r := Some(Err(zones.error));
      } else if zones.value == [] {
        FetchedAll(device.state, nextSector, yielded);
        done := true;
        r := None;
      } else {
        FetchedMore(device.state, nextSector, yielded, zones.value);
        var last := zones.value[|zones.value| - 1];
        var next: u64 := last.start + last.len;
        done := next <= nextSector;
        nextSector := next;
        buffer := zones.value;
        bufPos := 1;
        yielded := yielded + [buffer[0]];
        r := Some(Ok(buffer[0]));
      }
    }
  }

  /** What one call of `next` may answer, given the zones yielded before and whether it was done: the next
      zone of the list; an error or, with all zones yielded, nothing, either of which makes it done; and
      once done, nothing for ever. */
  ghost predicate Yields(all: seq<Zone>, before: seq<Zone>, doneBefore: bool, r: Option<Result<Zone>>,
                         after: seq<Zone>, done: bool) {
    match r
    case Some(Ok(z)) => !doneBefore && !done && |before| < |all| && z == all[|before|] && after == before + [z]
    case Some(Err(e)) => !doneBefore && done && after == before && e.FromDevice()
    case None => done && after == before && (doneBefore || after == all)
  }

  /** The iterator's place in the device's list: yielded and pending zones are a prefix of it, and
      the next batch is asked for where that prefix ends. */
  ghost predicate Tracks(s: DeviceState, yielded: seq<Zone>, pending: seq<Zone>, nextSector: nat, done: bool)
    requires ValidState(s)
  {
    && |yielded| + |pending| <= |s.zones|
    && yielded + pending == Descriptors(s)[..|yielded| + |pending|]
    && (if done then pending == [] else BatchStart(s, nextSector, |yielded| + |pending|))
  }

  lemma YieldPending(s: DeviceState, yielded: seq<Zone>, pending: seq<Zone>, nextSector: nat, done: bool)
    requires ValidState(s) && Tracks(s, yielded, pending, nextSector, done) && pending != []
    ensures Tracks(s, yielded + [pending[0]], pending[1..], nextSector, done)
    ensures |yielded| < |s.zones| && pending[0] == Descriptors(s)[|yielded|] && !done
  {
    assert (yielded + [pending[0]]) + pending[1..] == yielded + pending;
    assert (yielded + pending)[|yielded|] == pending[0];
  }

  /** The sector from which the batch after `k` fetched zones is asked for. */
  ghost predicate BatchStart(s: DeviceState, sector: nat, k: nat)
    requires ValidState(s)
  {
    k <= |s.zones| && sector == if k < |s.zones| then s.zones[k].start else End(s.zones)
  }

  lemma FetchFailed(s: DeviceState, sector: nat, yielded: seq<Zone>)
    requires ValidState(s) && Tracks(s, yielded, [], sector, false)
    ensures Tracks(s, yielded, [], sector, true)
  {
  }

  lemma FetchedAll(s: DeviceState, sector: nat, yielded: seq<Zone>)
    requires ValidState(s) && Tracks(s, yielded, [], sector, false) && sector >= End(s.zones)
    ensures Tracks(s, yielded, [], sector, true) && yielded == Descriptors(s)
  {
    Ordered(s.zones);
    assert yielded + [] == yielded;
    assert Descriptors(s)[..|s.zones|] == Descriptors(s);
  }

  lemma FetchedMore(s: DeviceState, sector: nat, yielded: seq<Zone>, batch: seq<Zone>)
    requires ValidState(s) && Tracks(s, yielded, [], sector, false) && |batch| > 0 && sector < End(s.zones)
    requires var k := IndexOf(s.zones, sector);
             k + |batch| <= |s.zones| && batch == Descriptors(s)[k..k + |batch|]
    ensures Tracks(s, yielded + [batch[0]], batch[1..], batch[|batch| - 1].End(), false)
    ensures |yielded| < |s.zones| && batch[0] == Descriptors(s)[|yielded|]
    ensures sector < batch[|batch| - 1].End() < U64_END
  {
    hide ValidState;
    assert yielded + [] == yielded;
    BatchAt(s, sector, |yielded|);
    EndOfBatch(s, yielded, batch);
    assert (yielded + [batch[0]]) + batch[1..] == yielded + batch;
    assert batch[|batch| - 1] == Descriptors(s)[|yielded| + |batch| - 1];
  }

  // ---------- filtered report ----------

  function FilterZones(zones: seq<Zone>, f: ZoneFilter): seq<Zone> {
    if zones == [] then [] else
      var rest := FilterZones(zones[..|zones| - 1], f);
      if f.Matches(zones[|zones| - 1]) then rest + [zones[|zones| - 1]] else rest
  }

  /** The filter keeps the order and judges each zone for itself: what it leaves of a list are the parts it
      leaves of the list's parts. */
  lemma {:induction false} FilterZonesOfParts(a: seq<Zone>, b: seq<Zone>, f: ZoneFilter)
    ensures FilterZones(a + b, f) == FilterZones(a, f) + FilterZones(b, f)
    decreases |b|
  {
    hide ZoneFilter.Matches;
    if b == [] {
      assert a + b == a;
    } else {
      FilterZonesOfParts(a, b[..|b| - 1], f);
      assert (a + b)[..|a + b| - 1] == a + b[..|b| - 1];
    }
  }

  /** A zone is kept if its type is one of those given, or none is given, and likewise its condition. */
  lemma {:induction false} KeptExactly(zones: seq<Zone>, z: Zone, f: ZoneFilter)
    ensures z in FilterZones(zones, f) <==>
              && z in zones
              && (f.zoneTypes == [] || z.zoneType in f.zoneTypes) && (f.conditions == [] || z.condition in f.conditions)
  {
    if zones != [] {
      KeptExactly(zones[..|zones| - 1], z, f);
    }
  }

  /** The empty filter keeps the list: the lazy walk and the eager report give the same sequence. */
  lemma {:induction false} EmptyFilterKeepsAll(zones: seq<Zone>)
    ensures FilterZones(zones, ZoneFilter([], [])) == zones
  {
    if zones == [] {
    } else {
      EmptyFilterKeepsAll(zones[..|zones| - 1]);
    }
  }

  /** The matching zones of the device, in order, whatever the batch size. */
  method ReportZonesFiltered(device: ZonedDevice, filter: ZoneFilter, batchSize: nat) returns (r: Result<seq<Zone>>)
    requires device.Valid()
    ensures r.Ok? ==> r.value == FilterZones(Descriptors(device.state), filter)
    ensures r.Err? ==> r.error.FromDevice() && !device.reliable
  {
    var result: seq<Zone> := [];
    var zones := new ZoneIterator(device, batchSize);
    while true
      invariant fresh(zones) && zones.Valid() && zones.device == device && !zones.done
      invariant result == FilterZones(zones.yielded, filter)
      decreases |device.state.zones| - |zones.yielded|
    {
      ghost var before := zones.yielded;
      var next := zones.Next();
      if next.None? {
        break;
      }
      if next.value.Err? {
        return Err(next.value.error);
      }
      assert zones.yielded[..|zones.yielded| - 1] == before;
      if filter.Matches(next.value.value) {
        result := result + [next.value.value];
      }
    }
    return Ok(result);
  }
}
