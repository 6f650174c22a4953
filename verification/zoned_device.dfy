/** `ZonedDevice` over one platform device. The first group of methods is the kernel's side: its
    contracts leave open how many zones a report holds, how many bytes a transfer moves and when a
    call fails, and the callers know nothing but those contracts. */
module ZonedDevices {
  import opened ZonedTypes
  import opened DeviceModel
  import opened OffsetWrites

  const MIN_REPORT_ENTRIES: nat := 16384

  datatype DeviceInfo = DeviceInfo(zoneSize: nat, nrZones: nat)

  ghost predicate AlignedAt(zones: seq<Zone>, i: nat, scale: nat)
    requires scale > 0
  {
    i < |zones| ==> zones[i].start % scale == 0 && zones[i].len % scale == 0
  }

  /** Zones begin and end at logical block boundaries. */
  ghost predicate Aligned(zones: seq<Zone>, scale: nat)
    requires scale > 0
  {
    forall i: nat :: AlignedAt(zones, i, scale)
  }

  /** Flooring a sector to a logical block does not change the zone that holds it. */
  lemma FlooringKeepsZone(zones: seq<Zone>, scale: nat, sector: nat)
    requires Contiguous(zones) && scale > 0
    requires Aligned(zones, scale)
    ensures sector < End(zones) <==> sector / scale * scale < End(zones)
    ensures sector < End(zones) ==> IndexOf(zones, sector / scale * scale) == IndexOf(zones, sector)
  {
    var floor := sector / scale * scale;
    assert floor <= sector < floor + scale;
    var last := zones[|zones| - 1];
    assert AlignedAt(zones, |zones| - 1, scale);
    if floor < End(zones) {
      MultipleNotInside(last.End(), scale, sector / scale, sector) by {
        assert last.start % scale == 0 && last.len % scale == 0;
        SumOfMultiples(last.start, last.len, scale);
      }
      var i := IndexOf(zones, sector);
      assert AlignedAt(zones, i, scale);
      MultipleNotInside(zones[i].start, scale, sector / scale, sector);
      IndexUnique(zones, floor, i);
    }
  }

  lemma SumOfMultiples(a: nat, b: nat, d: nat)
    requires d > 0 && a % d == 0 && b % d == 0
    ensures (a + b) % d == 0
  {
    assert a == d * (a / d) && b == d * (b / d);
    assert a + b == d * (a / d + b / d);
    QuotientUnique(a + b, d, a / d + b / d);
  }

  /** No multiple of `d` lies strictly between `d * q` and any `x` whose quotient is `q`. */
  lemma MultipleNotInside(m: nat, d: nat, q: nat, x: nat)
    requires d > 0 && m % d == 0 && q == x / d
    ensures m <= x ==> m <= q * d
    ensures x < m ==> q * d + d <= m
  {
    assert m == d * (m / d);
    assert d * q <= x < d * q + d;
    MultiplesCompare(d, m / d, q, x);
  }

  lemma MultiplesCompare(d: nat, k: nat, q: nat, x: nat)
    requires d * q <= x < d * q + d
    ensures d * k <= x ==> d * k <= d * q
    ensures x < d * k ==> d * q + d <= d * k
  {
    if k <= q {
      ProductMonotone(d, k, q);
    } else {
      ProductMonotone(d, q + 1, k);
    }
  }

  lemma BlockOfZone(zones: seq<Zone>, scale: nat, i: nat)
    requires Contiguous(zones) && scale > 0 && Aligned(zones, scale) && i < |zones|
    ensures zones[i].start / scale * scale == zones[i].start
    ensures zones[i].start < End(zones) && IndexOf(zones, zones[i].start) == i
  {
    assert AlignedAt(zones, i, scale);
    IndexUnique(zones, zones[i].start, i);
  }

  lemma StaysAligned(a: seq<Zone>, b: seq<Zone>, scale: nat)
    requires scale > 0 && Aligned(a, scale) && SameLayout(b, a)
    ensures Aligned(b, scale)
  {
    forall i: nat
      ensures AlignedAt(b, i, scale)
    {
      assert AlignedAt(a, i, scale);
      assert i < |a| ==> SameShape(b[i], a[i]);
    }
  }

  class ZonedDevice {
    const writable: bool
    /** Logical block size divided by 512. */
    const lbaScale: nat
    /** A successful write of a non-empty buffer accepts at least one byte. */
    const progressive: bool
    /** Kernel calls never fail of themselves: what the device can do, it does. */
    const reliable: bool
    /** A successful kernel call does as much as it can. */
    const eager: bool
    var state: DeviceState
    /** Zone commands completed so far, in order, with the index of their zone. */
    ghost var issued: seq<(ZoneCommand, nat)>

    constructor (state: DeviceState, writable: bool, lbaScale: nat, progressive: bool, reliable: bool, eager: bool)
      requires ValidState(state) && lbaScale > 0
      requires Aligned(state.zones, lbaScale)
      ensures Valid() && this.state == state && issued == []
      ensures this.writable == writable && this.lbaScale == lbaScale
      ensures this.progressive == progressive && this.reliable == reliable && this.eager == eager
    {
      this.state, this.writable, this.lbaScale := state, writable, lbaScale;
      this.progressive, this.reliable, this.eager := progressive, reliable, eager;
      issued := [];
    }

    ghost predicate Valid()
      reads this
    {
      && ValidState(state)
      && lbaScale > 0
      && Aligned(state.zones, lbaScale)
    }

    /** Writing fails only where the zone or its state refuses it, and always goes on. */
    predicate Dependable() {
      reliable && writable && progressive
    }

    /** Valid, with the layout and constants of the earlier state `s`. */
    ghost predicate ValidAfter(s: DeviceState)
      reads this
    {
      Valid() && SameLayout(state.zones, s.zones) && SameConstants(state, s)
    }

    // ---------- the kernel's side ----------

    method GetMediaSize() returns (r: Result<nat>)
      requires Valid()
      ensures r == Ok(|state.data|) || (r == Err(Ioctl) && !reliable)
    {
      var fails: bool := *;
      if fails && !reliable {
        return Err(Ioctl);
      }
      return Ok(|state.data|);
    }

    /** Consecutive descriptors from the zone holding block `lba`; at least one unless `lba` is past
        the end. */
    method ReportZonesRaw(lba: nat, room: nat) returns (r: Result<seq<Zone>>)
      requires Valid() && room > 0
      ensures r.Err? ==> r.error == Ioctl && !reliable
      ensures r.Ok? && lba * lbaScale >= End(state.zones) ==> r.value == []
      ensures r.Ok? && lba * lbaScale < End(state.zones) ==>
                var k := IndexOf(state.zones, lba * lbaScale);
                && 1 <= |r.value| <= room
                && k + |r.value| <= |state.zones|
                && r.value == Descriptors(state)[k..k + |r.value|]
                && (eager ==> |r.value| == room || k + |r.value| == |state.zones|)
    {
      var fails: bool := *;
      if fails && !reliable {
        return Err(Ioctl);
      }
      if lba * lbaScale >= End(state.zones) {
        return Ok([]);
      }
      var k := IndexOf(state.zones, lba * lbaScale);
      var most := if room <= |state.zones| - k then room else |state.zones| - k;
      var n :| 1 <= n <= most;
      if eager {
        n := most;
      }
      return Ok(Descriptors(state)[k..k + n]);
    }

    /** One command for the zone that starts at block `lba`. */
    method ZoneCommandAt(c: ZoneCommand, lba: nat) returns (r: Result<()>)
      requires Valid() && lba * lbaScale < End(state.zones)
      modifies this
      ensures ValidAfter(old(state))
      ensures r.Err? ==> r.error == Ioctl && state == old(state) && issued == old(issued)
      ensures r.Ok? ==>
                var i := IndexOf(old(state.zones), lba * lbaScale);
                && Accepts(old(state).zones[i])
                && SECTOR_SIZE * old(state).zones[i].End() <= |old(state).data|
                && state == CommandZone(old(state), c, i)
                && issued == old(issued) + [(c, i)]
      ensures reliable && Accepts(old(state).zones[IndexOf(old(state.zones), lba * lbaScale)]) ==> r.Ok?
    {
      var i := IndexOf(state.zones, lba * lbaScale);
      var fails: bool := *;
      if (fails && !reliable) || !Accepts(state.zones[i]) {
        return Err(Ioctl);
      }
      CommandValid(state, c, i);
      ghost var before := state;
      state := CommandZone(state, c, i);
      issued := issued + [(c, i)];
      StaysAligned(before.zones, state.zones, lbaScale);
      return Ok(());
    }

    /** Reset with the all-zones flag: resets every zone that can be reset and skips the others. */
    method ResetAllZones() returns (r: Result<()>)
      requires Valid()
      modifies this
      ensures ValidAfter(old(state))
      ensures r.Err? ==> r.error == Ioctl && state == old(state) && !reliable
      ensures r.Ok? ==> state == CommandRange(old(state), Reset, 0, |old(state).zones|)
      ensures issued == old(issued)
    {
      var fails: bool := *;
      if fails && !reliable {
        return Err(Ioctl);
      }
      CommandRangeValid(state, Reset, 0, |state.zones|);
      ghost var before := state;
      var n := |state.zones|;
      ghost var all := CommandRange(state, Reset, 0, n);
      var i := 0;
      CommandRangeEmpty(before, Reset, 0);
      while i < n
        invariant 0 <= i <= n == |before.zones|
        invariant state == CommandRange(before, Reset, 0, i) && issued == old(issued)
      {
        CommandRangeStep(before, Reset, 0, i);
        state := CommandZone(state, Reset, i);
        i := i + 1;
      }
      StaysAligned(before.zones, state.zones, lbaScale);
      return Ok(());
    }

    method PlatformWrite(buf: seq<byte>, offset: nat) returns (r: Result<nat>)
      requires Valid() && offset % SECTOR_SIZE == 0
      modifies this`state
      ensures ValidAfter(old(state))
      ensures r.Err? ==> r.error.FromDevice() && state == old(state)
      ensures !writable ==> r == Err(ReadOnly)
      ensures r.Ok? ==>
                && WriteAllowed(old(state), offset / SECTOR_SIZE, |buf|, r.value)
                && state == AfterWrite(old(state), offset / SECTOR_SIZE, buf[..r.value])
                && (progressive && |buf| > 0 ==> r.value > 0)
      ensures TakesIfItCan(old(state), offset / SECTOR_SIZE, |buf|, r)
    {
      hide ValidState, Aligned, WriteAllowed, MostAccepted, IndexOf;
      if !writable {
        return Err(ReadOnly);
      }
      var sector, fails: bool := offset / SECTOR_SIZE, *;
      if !WriteAllowed(state, sector, |buf|, 0) || (fails && !reliable) {
        return Err(Io);
      }
      MostIsAllowed(state, sector, |buf|);
      var n :| 0 <= n <= |buf|;
      if eager || !WriteAllowed(state, sector, |buf|, n) || (progressive && n == 0 && |buf| > 0) {
        n := MostAccepted(state, sector, |buf|);
      }
      ghost var before := state;
      AllowedAlone(state, sector, |buf|, n);
      WriteValid(state, sector, buf[..n]);
      state := AfterWrite(state, sector, buf[..n]);
      StaysAligned(before.zones, state.zones, lbaScale);
      return Ok(n);
    }

    /** A write of `m` bytes at `sector` that the device can take succeeds where the kernel is reliable, and
        takes all it can where it is eager. */
    ghost predicate TakesIfItCan(s: DeviceState, sector: nat, m: nat, r: Result<nat>)
      requires ValidState(s)
    {
      WriteAllowed(s, sector, m, 0) ==>
        && (reliable && writable ==> r.Ok?)
        && (eager && r.Ok? ==> r.value == MostAccepted(s, sector, m))
    }

    /** One gather write of all buffers. */
    method PlatformWritev(bufs: seq<seq<byte>>, offset: nat) returns (r: Result<nat>)
      requires Valid() && offset % SECTOR_SIZE == 0
      modifies this`state
      ensures ValidAfter(old(state))
      ensures r.Err? ==> r.error.FromDevice() && state == old(state)
      ensures !writable ==> r == Err(ReadOnly)
      ensures r.Ok? ==>
                && WriteAllowed(old(state), offset / SECTOR_SIZE, |Flatten(bufs)|, r.value)
                && state == AfterWrite(old(state), offset / SECTOR_SIZE, Flatten(bufs)[..r.value])
                && (progressive && |Flatten(bufs)| > 0 ==> r.value > 0)
      ensures TakesIfItCan(old(state), offset / SECTOR_SIZE, |Flatten(bufs)|, r)
    {
      r := PlatformWrite(Flatten(bufs), offset);
    }

    /** How many bytes a read moves, of those that fit the buffer and are left on the device. */
    method SomeCount(room: nat, left: nat) returns (n: nat)
      requires room > 0 && left > 0
      ensures 1 <= n <= room && n <= left
      ensures room % SECTOR_SIZE == 0 && left % SECTOR_SIZE == 0 ==> n % SECTOR_SIZE == 0
      ensures eager ==> n == room || n == left
    {
      var most := if room <= left then room else left;
      n :| 1 <= n <= most;
      if eager {
        n := most;
      }
      if room % SECTOR_SIZE == 0 && n % SECTOR_SIZE != 0 {
        n := most;
      }
    }

    /** Reads into `buf[from..]`; short reads move whole sectors, and only the device end gives 0. */
    method PlatformRead(buf: array<byte>, from: nat, offset: nat) returns (r: Result<nat>)
      requires Valid() && offset % SECTOR_SIZE == 0 && from <= buf.Length
      modifies buf
      ensures r.Err? ==> r.error == Io && buf[..] == old(buf[..]) && !reliable
      ensures r.Ok? ==>
                && from + r.value <= buf.Length
                && ((buf.Length - from) % SECTOR_SIZE == 0 ==> r.value % SECTOR_SIZE == 0)
                && (r.value == 0 <==> from == buf.Length || offset >= |state.data|)
                && (r.value > 0 ==> offset + r.value <= |state.data|
                                    && buf[from..from + r.value] == state.data[offset..offset + r.value])
                && buf[..from] == old(buf[..from])
                && buf[from + r.value..] == old(buf[from + r.value..])
                && (eager && r.value > 0 ==> from + r.value == buf.Length || offset + r.value == |state.data|)
    {
      hide ValidState, Aligned;
      WholeSectorsOfData(state);
      var fails: bool := *;
      if fails && !reliable {
        return Err(Io);
      }
      if from == buf.Length || offset >= |state.data| {
        return Ok(0);
      }
      var n := SomeCount(buf.Length - from, |state.data| - offset);
      forall k | 0 <= k < n {
        buf[from + k] := state.data[offset + k];
      }
      return Ok(n);
    }

    // ---------- the platform layer (FreeBSD) ----------

    method GetDeviceInfo() returns (r: Result<DeviceInfo>)
      requires Valid()
      ensures r.Err? ==> r.error.FromDevice() && !reliable
      ensures r.Ok? ==> r.value == DeviceInfo(state.zones[0].len, |state.zones|)
    {
      var media := GetMediaSize();
      if media.Err? {
        return Err(media.error);
      }
      var zones := ReportZonesRaw(0, MIN_REPORT_ENTRIES);
      if zones.Err? {
        return Err(zones.error);
      }
      IndexUnique(state.zones, 0, 0);
      if zones.value == [] {
        return Err(NotZoned);
      }
      var zoneSize := zones.value[0].len;
      var totalSectors := media.value / SECTOR_SIZE;
      CountIsCapacityRoundedUp(state.zones);
      var nrZones: u32 := (totalSectors + zoneSize - 1) / zoneSize;
      return Ok(DeviceInfo(zoneSize, nrZones));
    }

    /** Descriptors from the zone that holds `sector`, asked for by block. */
    method ReportFromBlockOf(sector: nat, room: nat) returns (r: Result<seq<Zone>>)
      requires Valid() && room > 0
      ensures r.Err? ==> r.error == Ioctl && !reliable
      ensures r.Ok? && sector >= End(state.zones) ==> r.value == []
      ensures r.Ok? && sector < End(state.zones) ==>
                var k := IndexOf(state.zones, sector);
                && 1 <= |r.value| <= room
                && k + |r.value| <= |state.zones|
                && r.value == Descriptors(state)[k..k + |r.value|]
                && (eager ==> |r.value| == room || k + |r.value| == |state.zones|)
    {
      var startLba := sector / lbaScale;
      FlooringKeepsZone(state.zones, lbaScale, sector);
      r := ReportZonesRaw(startLba, room);
    }

    /** Up to `max(maxZones, 1)` descriptors, beginning with the zone that holds `sector`. */
    method ReportZones(sector: nat, maxZones: nat) returns (r: Result<seq<Zone>>)
      requires Valid()
      ensures r.Err? ==> r.error == Ioctl && !reliable
      ensures r.Ok? && sector >= End(state.zones) ==> r.value == []
      ensures r.Ok? && sector < End(state.zones) ==>
                var k := IndexOf(state.zones, sector);
                && 1 <= |r.value| <= (if maxZones == 0 then 1 else maxZones)
                && k + |r.value| <= |state.zones|
                && r.value == Descriptors(state)[k..k + |r.value|]
                && (eager ==> |r.value| == (if maxZones == 0 then 1 else maxZones) || k + |r.value| == |state.zones|)
    {
      var count := if maxZones < 1 then 1 else maxZones;
      hide ValidState, Aligned, Descriptors, IndexOf;
      var room := if count < MIN_REPORT_ENTRIES then MIN_REPORT_ENTRIES else count;
      r := ReportFromBlockOf(sector, room);
      if r.Ok? && |r.value| > count {
        ReportCutShort(state, sector, r.value, count);
        r := Ok(r.value[..count]);
      }
    }

    /** One command for the zone that starts at `sector`, addressed by its block. */
    method CommandZoneFrom(c: ZoneCommand, sector: nat, ghost i: nat) returns (r: Result<()>)
      requires Valid() && i < |state.zones| && sector == state.zones[i].start
      modifies this
      ensures ValidAfter(old(state))
      ensures r.Err? ==> r.error == Ioctl && state == old(state) && issued == old(issued)
      ensures r.Ok? ==>
                && Accepts(old(state).zones[i])
                && SECTOR_SIZE * old(state).zones[i].End() <= |old(state).data|
                && state == CommandZone(old(state), c, i)
                && issued == old(issued) + [(c, i)]
      ensures reliable && Accepts(old(state).zones[i]) ==> r.Ok?
    {
      var lba := sector / lbaScale;
      BlockOfZone(state.zones, lbaScale, i);
      r := ZoneCommandAt(c, lba);
    }

    /** The zone under the walk's cursor, or `None` when nothing is reported. */
    method ZoneUnder(cursor: u64, ghost c: ZoneCommand, ghost before: DeviceState, ghost w: Walk, ghost done: nat)
      returns (r: Result<Option<Zone>>)
      requires Valid() && ValidState(before) && state == CommandRange(before, c, w.lo, done)
      requires w.Of(before.zones) && w.At(before.zones, cursor, done) && cursor < w.sector + w.nrSectors
      ensures r.Err? ==> r.error == Ioctl && !reliable && (cursor < End(before.zones) ==> done < w.hi)
      ensures r.Ok? && r.value.None? ==> cursor >= End(before.zones)
      ensures r.Ok? && r.value.Some? ==>
                && done < w.hi && cursor < before.zones[done].End() < U64_END
                && w.At(before.zones, before.zones[done].End(), done + 1)
                && r.value.value.start == before.zones[done].start && r.value.value.len == before.zones[done].len
    {
      CommandRangeValid(before, c, w.lo, done);
      SameIndex(before.zones, state.zones, 0);
      if cursor < End(state.zones) {
        WalkFinds(before.zones, state.zones, w, cursor, done);
      }
      var reported := ReportZones(cursor, 1);
      if reported.Err? {
        return Err(reported.error);
      }
      if reported.value == [] {
        return Ok(None);
      }
      assert reported.value[0] == Descriptors(state)[done];
      assert SameShape(state.zones[done], before.zones[done]);
      return Ok(Some(reported.value[0]));
    }

    /** What a range walk has done so far: commanded exactly zones `lo` to `done - 1`, in ascending
        order and once each. */
    ghost predicate Walked(c: ZoneCommand, before: DeviceState, issuedBefore: seq<(ZoneCommand, nat)>, lo: nat,
                           done: nat)
      reads this
    {
      && ValidState(before) && lo <= done <= |before.zones|
      && state == CommandRange(before, c, lo, done)
      && issued == issuedBefore + Issued(c, lo, done)
      && forall i :: lo <= i < done ==> Accepts(before.zones[i])
    }

    /** What a failed command on zone `i` says of the zone, where the kernel is reliable. */
    ghost predicate Refuses(before: DeviceState, i: nat) {
      reliable ==> i < |before.zones| && !Accepts(before.zones[i])
    }

    /** Command `c` as the next one of a walk. */
    method CommandNext(c: ZoneCommand, sector: nat, ghost before: DeviceState, ghost issuedBefore: seq<(ZoneCommand,
                       nat)>,
                       ghost lo: nat, ghost done: nat) returns (r: Result<()>)
      requires Valid() && Walked(c, before, issuedBefore, lo, done)
      requires done < |before.zones| && sector == before.zones[done].start
      modifies this
      ensures Valid()
      ensures r.Err? ==> r.error == Ioctl && Walked(c, before, issuedBefore, lo, done) && Refuses(before, done)
      ensures r.Ok? ==> Walked(c, before, issuedBefore, lo, done + 1)
    {
      CommandRangeStep(before, c, lo, done);
      r := CommandZoneFrom(c, sector, done);
    }

    /** Runs command `c` on each zone overlapping `[sector, sector + nrSectors)`, in ascending order.
        `done` is the first zone not commanded. */
    method ForEachZoneInRange(c: ZoneCommand, sector: u64, nrSectors: u64) returns (r: Result<()>, ghost done: nat)
      requires Valid() && nrSectors > 0 && sector + nrSectors < U64_END
      modifies this
      ensures Valid()
      ensures r.Err? ==> r.error == Ioctl
      ensures Walked(c, old(state), old(issued), RangeLo(old(state).zones, sector), done)
      ensures done <= RangeHi(old(state).zones, sector, nrSectors)
      ensures r.Ok? ==> done == RangeHi(old(state).zones, sector, nrSectors)
      ensures r.Err? && sector + nrSectors <= End(old(state).zones) ==>
                done < RangeHi(old(state).zones, sector, nrSectors)
      ensures r.Err? && reliable ==> done < RangeHi(old(state).zones, sector, nrSectors)
      ensures r.Err? ==> Refuses(old(state), done)
    {
      hide ValidState, Aligned, Walk.At, CommandRange, Issued, RangeLo, RangeHi, Accepts;
      FirstZone(state);
      var endSector: u64 := sector + nrSectors;
      var cursor: u64 := sector;
      ghost var before := state;
      ghost var w := Walk(sector, nrSectors, RangeLo(state.zones, sector), RangeHi(state.zones, sector, nrSectors));
      r, done := Ok(()), w.lo;
      WalkStarts(before, c, w);
      while cursor < endSector
        invariant Valid() && r.Ok?
        invariant w.At(before.zones, cursor, done) && done <= w.hi
        invariant Walked(c, before, old(issued), w.lo, done)
        decreases |before.zones| - done
      {
        var next := WalkOn(c, cursor, before, old(issued), w, done);
        if next.Err? {
          r := Err(next.error);
          break;
        }
        if next.value.None? {
          break;
        }
        done := done + 1;
        if next.value.value <= cursor {
          break;
        }
        cursor := next.value.value;
      }
      if r.Ok? {
        WalkEnds(before.zones, w, cursor, done);
      }
    }

    /** One round of the walk: the end of the zone just commanded, or `None` when nothing is reported. */
    method WalkOn(c: ZoneCommand, cursor: u64, ghost before: DeviceState, ghost issuedBefore: seq<(ZoneCommand, nat)>,
                  ghost w: Walk, ghost done: nat) returns (r: Result<Option<u64>>)
      requires Valid() && ValidState(before) && w.Of(before.zones) && w.At(before.zones, cursor, done)
      requires cursor < w.sector + w.nrSectors && Walked(c, before, issuedBefore, w.lo, done)
      modifies this
      ensures Valid()
      ensures r.Err? ==>
                && r.error == Ioctl && Walked(c, before, issuedBefore, w.lo, done)
                && (cursor < End(before.zones) ==> done < w.hi)
                && Refuses(before, done) && (reliable ==> done < w.hi)
      ensures r.Ok? && r.value.None? ==> cursor >= End(before.zones) && Walked(c, before, issuedBefore, w.lo, done)
      ensures r.Ok? && r.value.Some? ==>
                && done < w.hi && r.value.value > cursor
                && Walked(c, before, issuedBefore, w.lo, done + 1) && w.At(before.zones, r.value.value, done + 1)
    {
      hide ValidState, Aligned, Walk.At, CommandRange, Issued, RangeLo, RangeHi, Accepts;
      var zone := ZoneUnder(cursor, c, before, w, done);
      if zone.Err? {
        return Err(zone.error);
      }
      if zone.value.None? {
        return Ok(None);
      }
      var commanded := CommandNext(c, zone.value.value.start, before, issuedBefore, w.lo, done);
      if commanded.Err? {
        return Err(commanded.error);
      }
      var next: u64 := zone.value.value.start + zone.value.value.len;
      return Ok(Some(next));
    }

    // ---------- ZonedDevice ----------

    /** Resets the zones overlapping the range: by one reset-all command when the range starts at 0
        and reaches the zone count times the zone size, zone by zone otherwise. */
    method ResetZones(sector: u64, nrSectors: u64) returns (r: Result<()>, ghost done: nat)
      requires Valid()
      modifies this
      ensures Valid()
      ensures r == Err(InvalidRange(sector, nrSectors)) <==> nrSectors == 0 || sector + nrSectors >= U64_END
      ensures r == Err(InvalidRange(sector, nrSectors)) ==> state == old(state) && issued == old(issued)
      ensures RangeIsValid(sector, nrSectors) ==>
                var lo, hi := RangeLo(old(state).zones, sector), RangeHi(old(state).zones, sector, nrSectors);
                && lo <= done <= hi
                && state == CommandRange(old(state), Reset, lo, done)
                && (r.Ok? ==> done == hi)
                && (r.Err? ==> r.error.FromDevice() && (sector + nrSectors <= End(old(state).zones) ==> done < hi))
                && (if sector == 0 && nrSectors >= old(state).zones[0].len * |old(state).zones| then
                      && hi == |old(state).zones| && issued == old(issued)
                      && (r.Err? ==> done == lo && state == old(state) && !reliable)
                    else
                      && issued == old(issued) + Issued(Reset, lo, done)
                      && (r.Ok? ==> AllAccept(old(state).zones, lo, hi))
                      && (r.Err? && reliable ==> done < hi && !Accepts(old(state).zones[done])))
    {
      hide ValidState, Aligned, CommandRange, RangeLo, RangeHi, Uniform;
      if !RangeIsValid(sector, nrSectors) {
        return Err(InvalidRange(sector, nrSectors)), 0;
      }
      FirstZone(state);
      done := RangeLo(state.zones, sector);
      RangeNotEmpty(state.zones, sector, nrSectors);
      CommandRangeEmpty(state, Reset, done);
      TotalFits(state);
      if CoversDevice(state.zones, sector, nrSectors) {
        CoveredRange(state.zones, nrSectors);
      }
      var info := GetDeviceInfo();
      if info.Err? {
        return Err(info.error), done;
      }
      ghost var n := |state.zones|;
      var total: u64 := info.value.zoneSize * info.value.nrZones;
      if sector == 0 && nrSectors >= total {
        r := ResetAllZones();
        done := if r.Ok? then n else 0;
      } else {
        r, done := ForEachZoneInRange(Reset, sector, nrSectors);
      }
    }

    /** `open_zones`, `close_zones` and `finish_zones`. */
    method CommandZones(c: ZoneCommand, sector: u64, nrSectors: u64) returns (r: Result<()>, ghost done: nat)
      requires Valid()
      modifies this
      ensures Valid()
      ensures r == Err(InvalidRange(sector, nrSectors)) <==> nrSectors == 0 || sector + nrSectors >= U64_END
      ensures r == Err(InvalidRange(sector, nrSectors)) ==> state == old(state) && issued == old(issued)
      ensures RangeIsValid(sector, nrSectors) ==>
                && Walked(c, old(state), old(issued), RangeLo(old(state).zones, sector), done)
                && done <= RangeHi(old(state).zones, sector, nrSectors)
                && (r.Ok? ==> done == RangeHi(old(state).zones, sector, nrSectors))
                && (r.Err? ==> r.error.FromDevice() && Refuses(old(state), done))
                && (r.Err? && reliable ==> done < RangeHi(old(state).zones, sector, nrSectors))
                && (r.Err? && sector + nrSectors <= End(old(state).zones) ==> done < RangeHi(old(state).zones, sector, nrSectors))
    {
      if !RangeIsValid(sector, nrSectors) {
        return Err(InvalidRange(sector, nrSectors)), 0;
      }
      r, done := ForEachZoneInRange(c, sector, nrSectors);
    }

    /** The device's whole zone list, gathered in batches of any size and any shortness. */
    method ReportAllZones(batchSize: nat) returns (r: Result<seq<Zone>>)
      requires Valid()
      ensures r.Err? ==> r.error.FromDevice() && !reliable
      ensures r.Ok? ==> r.value == Descriptors(state)
    {
      var info := GetDeviceInfo();
      if info.Err? {
        return Err(info.error);
      }
      FirstZone(state);
      hide ValidState, Aligned, Contiguous, Descriptors, IndexOf;
      var batch := if batchSize == 0 then 512 else batchSize;
      var allZones: seq<Zone> := [];
      var sector: u64 := 0;
      while true
        invariant |allZones| < |state.zones| == info.value.nrZones && allZones == Descriptors(state)[..|allZones|]
        invariant sector == state.zones[|allZones|].start
        decreases |state.zones| - |allZones|
      {
        var zones := ReportBatch(sector, batch, allZones);
        if zones.Err? {
          return Err(zones.error);
        }
        if zones.value == [] {
          break;
        }
        var lastZone := zones.value[|zones.value| - 1];
        var nextSector: u64 := lastZone.start + lastZone.len;
        allZones := allZones + zones.value;
        if |allZones| >= info.value.nrZones || nextSector <= sector {
          break;
        }
        sector := nextSector;
      }
      return Ok(allZones);
    }

    /** One batch of that report, from where the zones listed so far end. */
    method ReportBatch(sector: u64, batch: nat, ghost listed: seq<Zone>) returns (r: Result<seq<Zone>>)
      requires Valid() && batch > 0
      requires |listed| < |state.zones| && listed == Descriptors(state)[..|listed|]
      requires sector == state.zones[|listed|].start
      ensures r.Err? ==> r.error == Ioctl && !reliable
      ensures r.Ok? ==>
                && 1 <= |r.value| && |listed| + |r.value| <= |state.zones|
                && listed + r.value == Descriptors(state)[..|listed| + |r.value|]
                && var next := r.value[|r.value| - 1].End();
                   && sector < next < U64_END
                   && (|listed| + |r.value| < |state.zones| ==> state.zones[|listed| + |r.value|].start == next)
    {
      hide ValidState, Aligned, Contiguous, Descriptors, IndexOf;
      BatchAt(state, sector, |listed|);
      r := ReportZones(sector, batch);
      if r.Ok? {
        EndOfBatch(state, listed, r.value);
      }
    }

    /** Accepts some prefix of `buf` at `sector`, or fails and changes nothing. */
    method WriteAt(sector: nat, buf: seq<byte>) returns (r: Result<nat>)
      requires Valid()
      modifies this`state
      ensures ValidAfter(old(state))
      ensures r.Err? ==> state == old(state)
      ensures r.Err? ==>
                if SECTOR_SIZE * sector < U64_END then r.error.FromDevice() else r.error == InvalidRange(sector, 0)
      ensures r.Ok? ==>
                && WriteAllowed(old(state), sector, |buf|, r.value)
                && state == AfterWrite(old(state), sector, buf[..r.value])
                && (progressive && |buf| > 0 ==> r.value > 0)
      ensures TakesIfItCan(old(state), sector, |buf|, r)
    {
      if sector * SECTOR_SIZE >= U64_END {
        return Err(InvalidRange(sector, 0));
      }
      r := PlatformWrite(buf, sector * SECTOR_SIZE);
    }

    method WritevAt(sector: nat, bufs: seq<seq<byte>>) returns (r: Result<nat>)
      requires Valid()
      modifies this`state
      ensures ValidAfter(old(state))
      ensures r.Err? ==> state == old(state)
      ensures r.Err? ==>
                if SECTOR_SIZE * sector < U64_END then r.error.FromDevice() else r.error == InvalidRange(sector, 0)
      ensures r.Ok? ==>
                && WriteAllowed(old(state), sector, |Flatten(bufs)|, r.value)
                && state == AfterWrite(old(state), sector, Flatten(bufs)[..r.value])
                && (progressive && |Flatten(bufs)| > 0 ==> r.value > 0)
      ensures TakesIfItCan(old(state), sector, |Flatten(bufs)|, r)
    {
      if sector * SECTOR_SIZE >= U64_END {
        return Err(InvalidRange(sector, 0));
      }
      r := PlatformWritev(bufs, sector * SECTOR_SIZE);
    }

    method ReadAt(sector: nat, buf: array<byte>, from: nat) returns (r: Result<nat>)
      requires Valid() && from <= buf.Length
      modifies buf
      ensures r.Err? ==> buf[..] == old(buf[..])
      ensures r.Err? ==>
                if SECTOR_SIZE * sector < U64_END then r.error.FromDevice() else r.error == InvalidRange(sector, 0)
      ensures r.Ok? ==>
                && from + r.value <= buf.Length
                && ((buf.Length - from) % SECTOR_SIZE == 0 ==> r.value % SECTOR_SIZE == 0)
                && (r.value == 0 <==> from == buf.Length || SECTOR_SIZE * sector >= |state.data|)
                && (r.value > 0 ==> SECTOR_SIZE * sector + r.value <= |state.data|
                                    && buf[from..from + r.value] == state.data[SECTOR_SIZE * sector..SECTOR_SIZE * sector + r.value])
                && buf[..from] == old(buf[..from])
                && buf[from + r.value..] == old(buf[from + r.value..])
                && (eager && r.value > 0 ==> from + r.value == buf.Length || SECTOR_SIZE * sector + r.value == |state.data|)
      ensures reliable && SECTOR_SIZE * sector < U64_END ==> r.Ok?
    {
      if sector * SECTOR_SIZE >= U64_END {
        return Err(InvalidRange(sector, 0));
      }
      r := PlatformRead(buf, from, sector * SECTOR_SIZE);
    }

    /** Writes all of `buf` at `sector`. Nothing outside the bytes accepted changes, nor any zone they do not
        reach; for a buffer of whole sectors they, all of them on success, are the first bytes of `buf` in
        place, and every zone's descriptor is as one write of its share of them leaves it. The calls made
        are an execution of the loop, whose outcome for other buffers TornOffsetWrites describes. */
    method WriteAllAt(sector: u64, buf: seq<byte>)
      returns (r: Result<()>, ghost accepted: nat, ghost counts: seq<nat>, ghost end: nat)
      requires Valid()
      modifies this`state
      ensures ValidAfter(old(state))
      ensures accepted <= |buf| && (r.Ok? <==> accepted == |buf|)
      ensures r.Err? ==>
                if SECTOR_SIZE * sector < U64_END then r.error.FromDevice() else r.error == InvalidRange(sector, 0)
      ensures accepted <= |buf| && Calls(old(state), sector, buf, counts, state, end, buf[accepted..])
      ensures OnlyReached(old(state), state, SECTOR_SIZE * sector, SECTOR_SIZE * sector + accepted)
      ensures |buf| % SECTOR_SIZE == 0 ==>
                accepted % SECTOR_SIZE == 0 && WrittenAt(old(state), state, SECTOR_SIZE * sector, buf[..accepted])
      ensures r.Err? && Dependable() ==> !WriteAllowed(state, end, |buf| - accepted, 0)
      ensures Dependable() && |buf| % SECTOR_SIZE == 0 && FitsZone(old(state), sector, |buf|) ==> r.Ok?
    {
      hide ValidState, Aligned, SameLayout, OnlyReached, WrittenAt, Underway, Calls, WriteAllowed, FitsZone;
      var offset: u64 := sector;
      var remaining := buf;
      ghost var before := state;
      r, accepted, counts, end := Ok(()), 0, [], sector;
      SameLayoutStart(before.zones);
      LoopBegins(before, sector, buf);
      while remaining != []
        invariant ValidAfter(before) && r == Ok(()) && end == offset
        invariant accepted <= |buf| && remaining == buf[accepted..]
        invariant Underway(before, state, sector, offset, buf, accepted, counts)
        decreases |remaining|
      {
        var written;
        written, counts := WriteNext(remaining, offset, before, sector, buf, accepted, counts);
        if written.Err? {
          r := Err(written.error);
          break;
        }
        accepted := accepted + written.value;
        remaining := remaining[written.value..];
        offset := offset + written.value / SECTOR_SIZE;
        end := offset;
      }
      LoopEnds(before, state, sector, offset, buf, accepted, counts);
      if |buf| % SECTOR_SIZE == 0 && accepted < |buf| && FitsZone(before, sector, |buf|) {
        StillTakes(before, state, sector, offset, |buf|, buf[..accepted]);
      }
    }

    /** One round of that loop; a write that takes nothing is an error. */
    method WriteNext(remaining: seq<byte>, offset: u64, ghost before: DeviceState, ghost sector: u64,
                     ghost buf: seq<byte>, ghost done: nat, ghost counts: seq<nat>)
      returns (r: Result<nat>, ghost more: seq<nat>)
      requires ValidAfter(before) && ValidState(before) && done < |buf| && remaining == buf[done..]
      requires Underway(before, state, sector, offset, buf, done, counts)
      modifies this`state
      ensures ValidAfter(before)
      ensures r.Err? ==>
                && state == old(state) && more == counts
                && (Dependable() ==> !WriteAllowed(state, offset, |remaining|, 0))
                && if SECTOR_SIZE * sector < U64_END then r.error.FromDevice() else r.error == InvalidRange(sector, 0)
      ensures r.Ok? ==>
                && 0 < r.value <= |remaining| && offset + r.value / SECTOR_SIZE < U64_END
                && Underway(before, state, sector, offset + r.value / SECTOR_SIZE, buf, done + r.value, more)
    {
      hide ValidState, Aligned, SameLayout, WriteAllowed, WrittenUpTo, Calls, Possible, IndexOf;
      ghost var now := state;
      more := counts;
      OffsetFits(before, state, sector, offset, buf, done);
      r := WriteAt(offset, remaining);
      SameLayoutOn(state.zones, now.zones, before.zones);
      if r.Ok? {
        if r.value == 0 {
          AllowedAlone(now, offset, |remaining|, r.value);
          NothingWritten(now, offset);
          r := Err(Io);
        } else {
          more := counts + [r.value];
          LoopGoesOn(before, now, sector, offset, buf, done, counts, remaining, r.value, state);
        }
      }
    }
  }

  predicate RangeIsValid(sector: nat, nrSectors: nat) {
    nrSectors > 0 && sector + nrSectors < U64_END
  }

  /** The range for which `reset_zones` uses the reset-all command. */
  predicate CoversDevice(zones: seq<Zone>, sector: nat, nrSectors: nat)
    requires |zones| > 0
  {
    sector == 0 && nrSectors >= zones[0].len * |zones|
  }

  ghost predicate AllAccept(zones: seq<Zone>, lo: nat, hi: nat) {
    forall i :: lo <= i < hi && i < |zones| ==> Accepts(zones[i])
  }

  /** The plain walk: command `c` on zones `lo` to `hi - 1` one after another, given up at the first
      zone that rejects it. */
  ghost function OneByOne(s: DeviceState, c: ZoneCommand, lo: nat, hi: nat): (r: Option<DeviceState>)
    requires ValidState(s) && hi <= |s.zones|
    ensures r.Some? ==> ValidState(r.value) && |r.value.zones| == |s.zones|
    decreases hi
  {
    if hi <= lo then Some(s) else
      match OneByOne(s, c, lo, hi - 1)
      case None => None
      case Some(t) =>
        CommandValid(t, c, hi - 1);
        if Accepts(t.zones[hi - 1]) then Some(CommandZone(t, c, hi - 1)) else None
  }

  /** The plain walk gets through exactly when every zone of the range accepts the command, and then
      leaves what the range command leaves. */
  lemma {:induction false} WalkIsRangeCommand(s: DeviceState, c: ZoneCommand, lo: nat, hi: nat)
    requires ValidState(s) && lo <= hi <= |s.zones|
    ensures OneByOne(s, c, lo, hi) == if AllAccept(s.zones, lo, hi) then Some(CommandRange(s, c, lo, hi)) else None
    decreases hi
  {
    if hi == lo {
      CommandRangeEmpty(s, c, lo);
    } else {
      WalkIsRangeCommand(s, c, lo, hi - 1);
      if AllAccept(s.zones, lo, hi - 1) {
        WalkOneMore(s, c, lo, hi, CommandRange(s, c, lo, hi - 1));
      }
      AcceptOneMore(s.zones, lo, hi);
      hide CommandRange, CommandZone, ValidState, AllAccept;
    }
  }

  lemma WalkOneMore(s: DeviceState, c: ZoneCommand, lo: nat, hi: nat, t: DeviceState)
    requires ValidState(s) && lo < hi <= |s.zones| && t == CommandRange(s, c, lo, hi - 1)
    requires OneByOne(s, c, lo, hi - 1) == Some(t)
    ensures OneByOne(s, c, lo, hi) == if Accepts(s.zones[hi - 1]) then Some(CommandRange(s, c, lo, hi)) else None
  {
    hide CommandRange, CommandZone, ValidState, SameLayout, Accepts;
    CommandRangeStep(s, c, lo, hi - 1);
  }

  lemma AcceptOneMore(zones: seq<Zone>, lo: nat, hi: nat)
    requires lo < hi <= |zones|
    ensures AllAccept(zones, lo, hi) <==> AllAccept(zones, lo, hi - 1) && Accepts(zones[hi - 1])
  {
  }

  /** Full-device reset: for every range from 0 that reaches the device's end, a shorter last zone
      included, the walk and the reset-all command, which leaves the range command on all zones,
      agree when no zone rejects reset, and otherwise the walk fails. */
  lemma FullResetPathsAgree(s: DeviceState, nrSectors: nat)
    requires ValidState(s) && nrSectors >= End(s.zones)
    ensures nrSectors > 0
    ensures OneByOne(s, Reset, RangeLo(s.zones, 0), RangeHi(s.zones, 0, nrSectors))
            == if AllAccept(s.zones, 0, |s.zones|) then Some(CommandRange(s, Reset, 0, |s.zones|)) else None
  {
    CoveredRange(s.zones, nrSectors);
    WalkIsRangeCommand(s, Reset, 0, |s.zones|);
  }

  lemma RangeNotEmpty(zones: seq<Zone>, sector: nat, nrSectors: nat)
    requires Contiguous(zones) && nrSectors > 0
    ensures RangeLo(zones, sector) <= RangeHi(zones, sector, nrSectors)
    ensures sector < End(zones) ==> RangeLo(zones, sector) < RangeHi(zones, sector, nrSectors)
  {
    RangeIsOverlap(zones, sector, nrSectors);
    assert sector < End(zones) ==> Overlaps(zones[RangeLo(zones, sector)], sector, nrSectors);
  }

  lemma TotalCoversDevice(zones: seq<Zone>)
    requires Contiguous(zones) && Uniform(zones)
    ensures End(zones) <= zones[0].len * |zones| < End(zones) + zones[0].len
    ensures zones[0].len <= End(zones)
  {
    var n := |zones|;
    StartIsIndexTimesSize(zones, n - 1);
    assert UniformAt(zones, n - 1);
    assert zones[0].len * n == zones[0].len * (n - 1) + zones[0].len;
    Ordered(zones);
  }

  /** The zone count times the zone size fits 64 bits. */
  lemma TotalFits(s: DeviceState)
    requires ValidState(s)
    ensures |s.zones| > 0 && End(s.zones) <= s.zones[0].len * |s.zones| < U64_END
  {
    TotalCoversDevice(s.zones);
  }

  lemma CoveredRange(zones: seq<Zone>, nrSectors: nat)
    requires Contiguous(zones) && nrSectors >= End(zones)
    ensures nrSectors > 0 && RangeLo(zones, 0) == 0 && RangeHi(zones, 0, nrSectors) == |zones|
  {
    IndexUnique(zones, 0, 0);
    IndexUnique(zones, End(zones) - 1, |zones| - 1);
  }

  lemma FirstZone(s: DeviceState)
    requires ValidState(s)
    ensures |s.zones| > 0 && s.zones[0].start == 0 && Contiguous(s.zones) && Uniform(s.zones)
  {
  }

  lemma BatchAt(s: DeviceState, sector: nat, k: nat)
    requires ValidState(s) && k < |s.zones| && sector == s.zones[k].start
    ensures sector < End(s.zones) && IndexOf(s.zones, sector) == k
  {
    IndexUnique(s.zones, sector, k);
  }

  /** A batch after the zones listed so far extends the list; its last zone ends where the next
      batch begins. */
  lemma EndOfBatch(s: DeviceState, listed: seq<Zone>, batch: seq<Zone>)
    requires ValidState(s) && |batch| > 0 && |listed| + |batch| <= |s.zones|
    requires listed == Descriptors(s)[..|listed|]
    requires batch == Descriptors(s)[|listed|..|listed| + |batch|]
    ensures listed + batch == Descriptors(s)[..|listed| + |batch|]
    ensures var next := batch[|batch| - 1].End();
            && s.zones[|listed|].start < next < U64_END
            && (|listed| + |batch| < |s.zones| ==> s.zones[|listed| + |batch|].start == next)
  {
    Ordered(s.zones);
    var k := |listed| + |batch|;
    assert batch[|batch| - 1] == Descriptors(s)[k - 1];
    assert Adjacent(s.zones, k - 1);
    assert s.zones[|listed|].start < s.zones[|listed|].End();
  }

  lemma WholeSectorsOfData(s: DeviceState)
    requires ValidState(s)
    ensures |s.data| % SECTOR_SIZE == 0
  {
  }

  /** The first descriptors of a report are a report. */
  lemma ReportCutShort(s: DeviceState, sector: nat, report: seq<Zone>, count: nat)
    requires ValidState(s) && count <= |report|
    requires sector >= End(s.zones) ==> report == []
    requires sector < End(s.zones) ==>
               var k := IndexOf(s.zones, sector);
               k + |report| <= |s.zones| && report == Descriptors(s)[k..k + |report|]
    ensures sector < End(s.zones) ==>
              var k := IndexOf(s.zones, sector);
              report[..count] == Descriptors(s)[k..k + count]
  {
  }

  lemma NothingWritten(s: DeviceState, sector: nat)
    requires ValidState(s) && WriteAllowed(s, sector, 0, 0)
    ensures AfterWrite(s, sector, []) == s
  {
    WriteInside(s, sector, 0);
    assert Splice(s.data, SECTOR_SIZE * sector, []) == s.data;
    assert s.zones[IndexOf(s.zones, sector) := s.zones[IndexOf(s.zones, sector)]] == s.zones;
  }

  /** A range walk over the zones `lo` to `hi - 1`, those that overlap the range. */
  datatype Walk = Walk(sector: nat, nrSectors: nat, lo: nat, hi: nat) {
    ghost predicate Of(zones: seq<Zone>)
      requires Contiguous(zones)
    {
      nrSectors > 0 && lo == RangeLo(zones, sector) && hi == RangeHi(zones, sector, nrSectors)
    }

    /** With zone `done` next, the cursor stands at the range's start, or at the end of the last
        zone commanded. */
    ghost predicate At(zones: seq<Zone>, cursor: nat, done: nat) {
      && lo <= done <= hi <= |zones|
      && if done == lo then cursor == sector else cursor == zones[done - 1].End()
    }
  }

  /** A walk that has not begun. */
  lemma WalkStarts(s: DeviceState, c: ZoneCommand, w: Walk)
    requires ValidState(s) && w.Of(s.zones)
    ensures w.lo <= w.hi && w.At(s.zones, w.sector, w.lo)
    ensures CommandRange(s, c, w.lo, w.lo) == s && Issued(c, w.lo, w.lo) == []
  {
    RangeIsOverlap(s.zones, w.sector, w.nrSectors);
    CommandRangeEmpty(s, c, w.lo);
  }

  /** While the cursor is inside the range and the device, a report from it begins with zone `done`. */
  lemma WalkFinds(zones: seq<Zone>, now: seq<Zone>, w: Walk, cursor: nat, done: nat)
    requires Contiguous(zones) && Contiguous(now) && SameLayout(now, zones)
    requires w.Of(zones) && w.At(zones, cursor, done)
    requires cursor < w.sector + w.nrSectors && cursor < End(now)
    ensures done < w.hi && IndexOf(now, cursor) == done
    ensures cursor < zones[done].End() <= End(zones)
    ensures w.At(zones, zones[done].End(), done + 1)
  {
    SameIndex(zones, now, cursor);
    RangeIsOverlap(zones, w.sector, w.nrSectors);
    Ordered(zones);
    if done > w.lo {
      assert Adjacent(zones, done - 1);
    }
    IndexUnique(zones, cursor, done);
    assert Overlaps(zones[done], w.sector, w.nrSectors);
  }

  /** Once the cursor has left the range or the device, every overlapping zone is behind it. */
  lemma WalkEnds(zones: seq<Zone>, w: Walk, cursor: nat, done: nat)
    requires Contiguous(zones) && w.Of(zones) && w.At(zones, cursor, done)
    requires cursor >= w.sector + w.nrSectors || cursor >= End(zones)
    ensures done == w.hi
  {
    RangeIsOverlap(zones, w.sector, w.nrSectors);
    Ordered(zones);
    if done > w.lo && done < |zones| {
      assert Adjacent(zones, done - 1);
    }
    assert done == |zones| || !Overlaps(zones[done], w.sector, w.nrSectors);
  }
}
