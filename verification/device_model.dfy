/** The zoned block device as a value: its zones, its bytes, and what each command does to them. */
module DeviceModel {
  import opened ZonedTypes

  /** `pattern` fills the bytes of a reset zone; with `sentinel` the platform reports a full zone
      without a write pointer (src/platform/freebsd.rs:178-185). */
  datatype DeviceState = DeviceState(zones: seq<Zone>, data: seq<byte>, pattern: byte, sentinel: bool)

  // ---------- layout ----------

  ghost predicate Contiguous(zones: seq<Zone>) {
    && |zones| > 0
    && zones[0].start == 0
    && (forall i :: 0 <= i < |zones| ==> zones[i].len > 0)
    && (forall i: nat :: Adjacent(zones, i))
  }

  /** Zone `i + 1` begins where zone `i` ends. */
  ghost predicate Adjacent(zones: seq<Zone>, i: nat) {
    i + 1 < |zones| ==> zones[i + 1].start == zones[i].End()
  }

  /** Every zone has the length of the first one, except a last zone that may be shorter. */
  ghost predicate Uniform(zones: seq<Zone>)
    requires |zones| > 0
  {
    forall i: nat :: UniformAt(zones, i)
  }

  ghost predicate UniformAt(zones: seq<Zone>, i: nat)
    requires |zones| > 0
  {
    && (i < |zones| ==> zones[i].len <= zones[0].len)
    && (i + 1 < |zones| ==> zones[i].len == zones[0].len)
  }

  function End(zones: seq<Zone>): nat {
    if |zones| == 0 then 0 else zones[|zones| - 1].End()
  }

  ghost predicate ValidState(s: DeviceState) {
    && Contiguous(s.zones)
    && Uniform(s.zones)
    && |s.zones| < U32_END
    && (forall i: nat :: ValidAt(s.zones, i))
    && |s.data| == SECTOR_SIZE * End(s.zones)
    && |s.data| < U64_END
  }

  ghost predicate ValidAt(zones: seq<Zone>, i: nat) {
    i < |zones| ==> zones[i].Valid()
  }

  ghost predicate SameShape(y: Zone, z: Zone) {
    y.start == z.start && y.len == z.len && y.capacity == z.capacity && y.zoneType == z.zoneType
  }

  /** What no command and no write ever changes. */
  ghost predicate SameLayout(a: seq<Zone>, b: seq<Zone>) {
    && |a| == |b|
    && forall i :: 0 <= i < |a| ==> SameShape(a[i], b[i])
  }

  ghost predicate SameConstants(a: DeviceState, b: DeviceState) {
    |a.data| == |b.data| && a.pattern == b.pattern && a.sentinel == b.sentinel
  }

  lemma SameLayoutStart(a: seq<Zone>)
    ensures SameLayout(a, a)
  {
  }

  lemma SameLayoutOn(a: seq<Zone>, b: seq<Zone>, c: seq<Zone>)
    requires SameLayout(a, b) && SameLayout(b, c)
    ensures SameLayout(a, c)
  {
    forall i | 0 <= i < |a|
      ensures SameShape(a[i], c[i])
    {
      assert SameShape(a[i], b[i]) && SameShape(b[i], c[i]);
    }
  }

  lemma {:induction false} OrderedAt(zones: seq<Zone>, i: nat, j: nat)
    requires Contiguous(zones)
    requires i < j < |zones|
    ensures zones[i].End() <= zones[j].start
    decreases j
  {
    assert Adjacent(zones, j - 1);
    if i + 1 < j {
      OrderedAt(zones, i, j - 1);
    }
  }

  lemma Ordered(zones: seq<Zone>)
    requires Contiguous(zones)
    ensures forall i, j :: 0 <= i < j < |zones| ==> zones[i].End() <= zones[j].start
    ensures forall i :: 0 <= i < |zones| ==> zones[i].End() <= End(zones)
  {
    forall i, j | 0 <= i < j < |zones|
      ensures zones[i].End() <= zones[j].start
    {
      OrderedAt(zones, i, j);
    }
  }

  /** The last of zones `0` to `k` that starts at or before `sector`. */
  function IndexFrom(zones: seq<Zone>, sector: nat, k: nat): (i: nat)
    requires Contiguous(zones) && k < |zones| && sector < zones[k].End()
    ensures i < |zones| && zones[i].start <= sector < zones[i].End()
    decreases k
  {
    if zones[k].start <= sector then k else
      assert Adjacent(zones, k - 1);
      IndexFrom(zones, sector, k - 1)
  }

  /** Index of the zone containing `sector`. */
  function IndexOf(zones: seq<Zone>, sector: nat): (i: nat)
    requires Contiguous(zones) && sector < End(zones)
    ensures i < |zones| && zones[i].start <= sector < zones[i].End()
  {
    IndexFrom(zones, sector, |zones| - 1)
  }

  lemma IndexUnique(zones: seq<Zone>, sector: nat, i: nat)
    requires Contiguous(zones) && i < |zones|
    requires zones[i].start <= sector < zones[i].End()
    ensures sector < End(zones) && IndexOf(zones, sector) == i
  {
    Ordered(zones);
    assert IndexOf(zones, sector) == i;
  }

  lemma SameIndex(a: seq<Zone>, b: seq<Zone>, sector: nat)
    requires Contiguous(a) && Contiguous(b) && SameLayout(a, b)
    ensures End(a) == End(b)
    ensures sector < End(a) ==> IndexOf(a, sector) == IndexOf(b, sector)
  {
    if sector < End(a) {
      var i := IndexOf(a, sector);
      assert b[i].start <= sector < b[i].End();
      IndexUnique(b, sector, i);
    }
  }

  // ---------- zone index arithmetic ----------

  lemma {:induction false} StartIsIndexTimesSize(zones: seq<Zone>, i: nat)
    requires Contiguous(zones) && Uniform(zones) && i < |zones|
    ensures zones[i].start == zones[0].len * i
  {
    if i == 0 {
    } else {
      StartIsIndexTimesSize(zones, i - 1);
      assert Adjacent(zones, i - 1) && UniformAt(zones, i - 1);
    }
  }

  /** The zone count is the device capacity divided by the zone size, rounded up
      (the FreeBSD count), and sector / zone size is the index of the zone holding that sector. */
  lemma CountIsCapacityRoundedUp(zones: seq<Zone>)
    requires Contiguous(zones) && Uniform(zones)
    ensures (End(zones) + zones[0].len - 1) / zones[0].len == |zones|
  {
    var n, size := |zones|, zones[0].len;
    StartIsIndexTimesSize(zones, n - 1);
    assert UniformAt(zones, n - 1);
    assert size * n == size * (n - 1) + size;
    QuotientUnique(End(zones) + size - 1, size, n);
  }

  lemma IndexIsQuotient(zones: seq<Zone>, sector: nat)
    requires Contiguous(zones) && Uniform(zones) && sector < End(zones)
    ensures IndexOf(zones, sector) == sector / zones[0].len
  {
    var i := IndexOf(zones, sector);
    StartIsIndexTimesSize(zones, i);
    assert UniformAt(zones, i);
    QuotientUnique(sector, zones[0].len, i);
  }

  /** Index `i` times the zone size is the start of zone `i`, and is past the end for every other `i`. */
  lemma IndexTimesSize(zones: seq<Zone>, i: nat)
    requires Contiguous(zones) && Uniform(zones)
    ensures i < |zones| ==> zones[0].len * i == zones[i].start && zones[i].start < End(zones)
    ensures i < |zones| ==> IndexOf(zones, zones[i].start) == i
    ensures i >= |zones| ==> zones[0].len * i >= End(zones)
  {
    var n := |zones|;
    if i < n {
      StartIsIndexTimesSize(zones, i);
      IndexUnique(zones, zones[i].start, i);
    } else {
      StartIsIndexTimesSize(zones, n - 1);
      assert UniformAt(zones, n - 1);
      ProductMonotone(zones[0].len, n, i);
      assert zones[0].len * n == zones[0].len * (n - 1) + zones[0].len;
    }
  }

  // ---------- reports ----------

  /** A report shows a zone as it is, except that the sentinel stands for a full zone's pointer. */
  function Reported(z: Zone, sentinel: bool): (r: Zone)
    ensures r.(writePointer := z.writePointer) == z
    ensures r.writePointer == z.writePointer || (r.writePointer.None? && sentinel && z.condition.Full?)
    ensures sentinel && z.condition.Full? ==> r.writePointer.None?
  {
    if sentinel && z.condition.Full? then z.(writePointer := None) else z
  }

  /** The device's whole zone list, as reports show it. */
  function Descriptors(s: DeviceState): (r: seq<Zone>)
    ensures |r| == |s.zones|
    ensures forall i :: 0 <= i < |r| ==> r[i] == Reported(s.zones[i], s.sentinel)
  {
    seq(|s.zones|, i requires 0 <= i < |s.zones| => Reported(s.zones[i], s.sentinel))
  }

  // ---------- updates of one zone ----------

  /** Zone `i` becomes `z` and the bytes from `off` become `bytes`; every change has this form. */
  function Update(s: DeviceState, i: nat, z: Zone, off: nat, bytes: seq<byte>): DeviceState
    requires i < |s.zones| && off + |bytes| <= |s.data|
  {
    s.(zones := s.zones[i := z], data := Splice(s.data, off, bytes))
  }

  /** The transitions of the zone lifecycle (README.md:104-131); a command the diagram has no
      edge for, accepted anyway, leaves the zone as it is. */
  function AfterCommand(c: ZoneCommand, z: Zone): Zone {
    match c
    case Reset => if z.HasWritePointer() then z.(condition := Empty, writePointer := Some(z.start)) else z
    case Open => if z.Active() then z.(condition := ExplicitlyOpen) else z
    case Close => if z.condition.ExplicitlyOpen? || z.condition.ImplicitlyOpen? then z.(condition := Closed) else z
    case Finish => if z.HasWritePointer() then z.(condition := Full, writePointer := Some(z.End())) else z
  }

  /** Zones without a usable write pointer reject every command. */
  predicate Accepts(z: Zone) {
    z.HasWritePointer()
  }

  function ErasedBytes(s: DeviceState, c: ZoneCommand, z: Zone): seq<byte> {
    if c.Reset? then Fill(SECTOR_SIZE * z.len, s.pattern) else []
  }

  /** Command `c` on zone `i`; a zone that rejects commands stays as it is. */
  function CommandZone(s: DeviceState, c: ZoneCommand, i: nat): DeviceState
    requires i < |s.zones| && SECTOR_SIZE * s.zones[i].End() <= |s.data|
  {
    var z := s.zones[i];
    if Accepts(z) then Update(s, i, AfterCommand(c, z), SECTOR_SIZE * z.start, ErasedBytes(s, c, z)) else s
  }

  /** Pointer and condition after `k` more sectors arrive at the write pointer. */
  function Advance(z: Zone, k: nat): Zone
    requires z.writePointer.Some?
  {
    if k == 0 then z
    else if z.writePointer.value + k >= z.CapacityEnd() then z.(condition := Full, writePointer := Some(z.End()))
    else z.(condition := if z.condition.ExplicitlyOpen? then ExplicitlyOpen else ImplicitlyOpen,
            writePointer := Some(z.writePointer.value + k))
  }

  /** Sectors a write of `n` bytes occupies; the device stores whole sectors. */
  function SectorsTouched(n: nat): nat {
    (n + SECTOR_SIZE - 1) / SECTOR_SIZE
  }

  /** End of the run of conventional zones that zone `i` belongs to. */
  function ConventionalEnd(zones: seq<Zone>, i: nat): nat
    requires i < |zones|
    decreases |zones| - i
  {
    if i + 1 < |zones| && zones[i + 1].zoneType.Conventional? then ConventionalEnd(zones, i + 1) else zones[i].End()
  }

  /** May the device accept exactly the first `n` bytes of an `m`-byte buffer written at `sector`? */
  predicate WriteAllowed(s: DeviceState, sector: nat, m: nat, n: nat)
    requires ValidState(s)
  {
    && sector < End(s.zones)
    && n <= m
    && (m % SECTOR_SIZE == 0 ==> n % SECTOR_SIZE == 0)
    && var i := IndexOf(s.zones, sector);
       var z := s.zones[i];
       if z.zoneType.Conventional? then
         z.condition.NotWritePointer? && SECTOR_SIZE * sector + n <= SECTOR_SIZE * ConventionalEnd(s.zones, i)
       else
         z.Active() && z.writePointer == Some(sector) && SECTOR_SIZE * sector + n <= SECTOR_SIZE * z.CapacityEnd()
  }

  /** Zone descriptor after `n` bytes were accepted. */
  function Written(z: Zone, n: nat): Zone {
    if z.writePointer.Some? then Advance(z, SectorsTouched(n)) else z
  }

  /** Where a write into zone `i` has to end. */
  function WriteEnd(zones: seq<Zone>, i: nat): nat
    requires i < |zones|
  {
    if zones[i].zoneType.Conventional? then ConventionalEnd(zones, i) else zones[i].CapacityEnd()
  }

  /** The most of an `m`-byte buffer that the device can take at `sector`. */
  function MostAccepted(s: DeviceState, sector: nat, m: nat): nat
    requires ValidState(s) && WriteAllowed(s, sector, m, 0)
  {
    var room := SECTOR_SIZE * WriteEnd(s.zones, IndexOf(s.zones, sector)) - SECTOR_SIZE * sector;
    if m <= room then m else room
  }

  /** It can take that much, and no more; some of it, unless the buffer is empty. */
  lemma MostIsAllowed(s: DeviceState, sector: nat, m: nat)
    requires ValidState(s) && WriteAllowed(s, sector, m, 0)
    ensures WriteAllowed(s, sector, m, MostAccepted(s, sector, m))
    ensures forall n: nat :: WriteAllowed(s, sector, m, n) ==> n <= MostAccepted(s, sector, m)
    ensures m > 0 ==> MostAccepted(s, sector, m) > 0
  {
    var i := IndexOf(s.zones, sector);
    assert ValidAt(s.zones, i);
    ConventionalEndInside(s.zones, i);
    WholeSectorRoom(sector, WriteEnd(s.zones, i));
  }

  lemma WholeSectorRoom(sector: nat, end: nat)
    requires sector < end
    ensures (SECTOR_SIZE * end - SECTOR_SIZE * sector) % SECTOR_SIZE == 0 < SECTOR_SIZE * end - SECTOR_SIZE * sector
  {
  }

  function AfterWrite(s: DeviceState, sector: nat, bytes: seq<byte>): DeviceState
    requires ValidState(s) && WriteAllowed(s, sector, |bytes|, |bytes|)
  {
    WriteInside(s, sector, |bytes|);
    var i := IndexOf(s.zones, sector);
    Update(s, i, Written(s.zones[i], |bytes|), SECTOR_SIZE * sector, bytes)
  }

  // ---------- the zone lifecycle ----------

  /** What the commands make of a zone with a meaningful pointer, and of one another: a reset empties the
      zone and a finish fills it, whatever was done before; an opened zone is closed and opened again
      without losing its place; a repeated command changes nothing more. */
  lemma Lifecycle(z: Zone, c: ZoneCommand)
    requires z.Valid() && z.HasWritePointer()
    ensures AfterCommand(Reset, z).condition.Empty? && AfterCommand(Reset, z).RemainingCapacity() == Some(z.capacity)
    ensures AfterCommand(Finish, z).condition.Full? && AfterCommand(Finish, z).writePointer == Some(z.End())
    ensures AfterCommand(Reset, AfterCommand(c, z)) == AfterCommand(Reset, z)
    ensures AfterCommand(Finish, AfterCommand(c, z)) == AfterCommand(Finish, z)
    ensures AfterCommand(c, AfterCommand(c, z)) == AfterCommand(c, z)
    ensures z.Active() ==>
              && AfterCommand(Open, z) == z.(condition := ExplicitlyOpen)
              && AfterCommand(Close, AfterCommand(Open, z)) == z.(condition := Closed)
              && AfterCommand(Open, AfterCommand(Close, z)) == AfterCommand(Open, z)
    ensures z.condition.Full? || z.condition.Empty? || z.condition.Closed? ==> AfterCommand(Close, z) == z
    ensures z.condition.Full? ==> AfterCommand(Open, z) == z
  {
  }

  /** What an accepted write makes of an active zone: full exactly when it reaches the capacity, otherwise
      open, explicitly only if it was so before, with the pointer behind the sectors written. A reset
      undoes it. */
  lemma WrittenLifecycle(z: Zone, n: nat)
    requires z.Valid() && z.Active() && 0 < n
    requires SECTOR_SIZE * z.writePointer.value + n <= SECTOR_SIZE * z.CapacityEnd()
    ensures var y, to := Written(z, n), SECTOR_SIZE * z.writePointer.value + n;
            && y == z.(condition := y.condition, writePointer := y.writePointer) && y.writePointer.Some?
            && (y.condition.Full? <==> to > SECTOR_SIZE * (z.CapacityEnd() - 1))
            && (y.condition.Full? ==> y.writePointer.value == z.End())
            && (!y.condition.Full? ==> to <= SECTOR_SIZE * y.writePointer.value < to + SECTOR_SIZE)
            && (y.condition.ExplicitlyOpen? <==> !y.condition.Full? && z.condition.ExplicitlyOpen?)
            && (y.condition.ImplicitlyOpen? <==> !y.condition.Full? && !z.condition.ExplicitlyOpen?)
            && AfterCommand(Reset, y) == AfterCommand(Reset, z)
  {
    var k := SectorsTouched(n);
    assert SECTOR_SIZE * k - SECTOR_SIZE < n <= SECTOR_SIZE * k;
  }

  /** A reset that the zone accepts leaves nothing of its bytes, and every byte outside it. */
  lemma ResetErases(s: DeviceState, i: nat, k: nat)
    requires ValidState(s) && i < |s.zones| && Accepts(s.zones[i]) && k < |s.data|
    ensures SECTOR_SIZE * s.zones[i].End() <= |s.data| == |CommandZone(s, Reset, i).data|
    ensures CommandZone(s, Reset, i).data[k]
            == if s.zones[i].start <= k / SECTOR_SIZE < s.zones[i].End() then s.pattern else s.data[k]
  {
    ZoneInside(s, i);
  }

  // ---------- what updates keep ----------

  lemma ZoneInside(s: DeviceState, i: nat)
    requires ValidState(s) && i < |s.zones|
    ensures SECTOR_SIZE * s.zones[i].End() <= |s.data|
  {
    Ordered(s.zones);
  }

  lemma {:induction false} ConventionalEndInside(zones: seq<Zone>, i: nat)
    requires Contiguous(zones) && i < |zones|
    ensures zones[i].End() <= ConventionalEnd(zones, i) <= End(zones)
    decreases |zones| - i
  {
    Ordered(zones);
    assert Adjacent(zones, i);
    if i + 1 < |zones| && zones[i + 1].zoneType.Conventional? {
      ConventionalEndInside(zones, i + 1);
    }
  }

  lemma WriteInside(s: DeviceState, sector: nat, n: nat)
    requires ValidState(s) && WriteAllowed(s, sector, n, n)
    ensures SECTOR_SIZE * sector + n <= |s.data|
  {
    var i := IndexOf(s.zones, sector);
    assert ValidAt(s.zones, i);
    ZoneInside(s, i);
    ConventionalEndInside(s.zones, i);
  }

  /** A state whose zones are valid and shaped like those of a valid state is valid. */
  lemma ValidByLayout(s: DeviceState, t: DeviceState)
    requires ValidState(s) && SameLayout(t.zones, s.zones) && SameConstants(t, s)
    requires forall i: nat :: ValidAt(t.zones, i)
    ensures ValidState(t)
  {
    forall i: nat
      ensures Adjacent(t.zones, i)
    {
      assert Adjacent(s.zones, i);
    }
    forall i: nat
      ensures UniformAt(t.zones, i)
    {
      assert UniformAt(s.zones, i);
    }
  }

  lemma UpdateValid(s: DeviceState, i: nat, z: Zone, off: nat, bytes: seq<byte>)
    requires ValidState(s) && i < |s.zones| && off + |bytes| <= |s.data|
    requires z.Valid() && SameShape(z, s.zones[i])
    ensures ValidState(Update(s, i, z, off, bytes))
    ensures SameLayout(Update(s, i, z, off, bytes).zones, s.zones)
    ensures SameConstants(Update(s, i, z, off, bytes), s)
  {
    var t := Update(s, i, z, off, bytes);
    forall k: nat
      ensures ValidAt(t.zones, k)
    {
      assert ValidAt(s.zones, k);
    }
    ValidByLayout(s, t);
  }

  lemma CommandKeepsZone(c: ZoneCommand, z: Zone)
    requires z.Valid()
    ensures CommandIfAccepted(c, z).Valid() && SameShape(CommandIfAccepted(c, z), z)
  {
  }

  lemma CommandValid(s: DeviceState, c: ZoneCommand, i: nat)
    requires ValidState(s) && i < |s.zones|
    ensures SECTOR_SIZE * s.zones[i].End() <= |s.data|
    ensures ValidState(CommandZone(s, c, i)) && SameLayout(CommandZone(s, c, i).zones, s.zones)
    ensures SameConstants(CommandZone(s, c, i), s)
  {
    ZoneInside(s, i);
    var z := s.zones[i];
    assert ValidAt(s.zones, i);
    CommandKeepsZone(c, z);
    if Accepts(z) {
      UpdateValid(s, i, AfterCommand(c, z), SECTOR_SIZE * z.start, ErasedBytes(s, c, z));
    }
  }

  lemma WrittenValid(s: DeviceState, sector: nat, n: nat)
    requires ValidState(s) && WriteAllowed(s, sector, n, n)
    ensures Written(s.zones[IndexOf(s.zones, sector)], n).Valid()
    ensures SameShape(Written(s.zones[IndexOf(s.zones, sector)], n), s.zones[IndexOf(s.zones, sector)])
  {
    assert ValidAt(s.zones, IndexOf(s.zones, sector));
  }

  lemma WriteValid(s: DeviceState, sector: nat, bytes: seq<byte>)
    requires ValidState(s) && WriteAllowed(s, sector, |bytes|, |bytes|)
    ensures ValidState(AfterWrite(s, sector, bytes)) && SameLayout(AfterWrite(s, sector, bytes).zones, s.zones)
  {
    WriteInside(s, sector, |bytes|);
    WrittenValid(s, sector, |bytes|);
    var i := IndexOf(s.zones, sector);
    UpdateValid(s, i, Written(s.zones[i], |bytes|), SECTOR_SIZE * sector, bytes);
  }

  /** Updates of different zones whose byte ranges do not meet commute. */
  lemma UpdateCommute(s: DeviceState, i: nat, y: Zone, off: nat, a: seq<byte>, j: nat, z: Zone, off': nat, b: seq<byte>)
    requires i < |s.zones| && j < |s.zones| && i != j
    requires off + |a| <= |s.data| && off' + |b| <= |s.data|
    requires off + |a| <= off' || off' + |b| <= off
    ensures Update(Update(s, i, y, off, a), j, z, off', b) == Update(Update(s, j, z, off', b), i, y, off, a)
  {
    SpliceCommute(s.data, off, a, off', b);
    assert s.zones[i := y][j := z] == s.zones[j := z][i := y];
  }

  // ---------- range commands ----------

  predicate Overlaps(z: Zone, sector: nat, nrSectors: nat) {
    z.start < sector + nrSectors && sector < z.End()
  }

  /** Zones `[RangeLo, RangeHi)` are those overlapping the sector range. */
  function RangeLo(zones: seq<Zone>, sector: nat): (r: nat)
    requires Contiguous(zones)
    ensures r <= |zones|
  {
    if sector < End(zones) then IndexOf(zones, sector) else |zones|
  }

  function RangeHi(zones: seq<Zone>, sector: nat, nrSectors: nat): (r: nat)
    requires Contiguous(zones) && nrSectors > 0
    ensures r <= |zones|
  {
    if sector + nrSectors - 1 < End(zones) then IndexOf(zones, sector + nrSectors - 1) + 1 else |zones|
  }

  lemma RangeIsOverlap(zones: seq<Zone>, sector: nat, nrSectors: nat)
    requires Contiguous(zones) && nrSectors > 0
    ensures RangeLo(zones, sector) <= RangeHi(zones, sector, nrSectors)
    ensures forall i :: 0 <= i < |zones| ==>
              (Overlaps(zones[i], sector, nrSectors) <==> RangeLo(zones, sector) <= i < RangeHi(zones, sector, nrSectors))
  {
    Ordered(zones);
    var lo, hi := RangeLo(zones, sector), RangeHi(zones, sector, nrSectors);
    forall i | 0 <= i < |zones|
      ensures Overlaps(zones[i], sector, nrSectors) <==> lo <= i < hi
    {
      if lo < |zones| && i < lo {
        assert zones[i].End() <= zones[lo].start;
      }
      if lo < |zones| && lo < i {
        assert zones[lo].End() <= zones[i].start;
      }
      if 0 < hi && hi - 1 < i {
        assert zones[hi - 1].End() <= zones[i].start;
      }
      if 0 < hi && i < hi - 1 {
        assert zones[i].End() <= zones[hi - 1].start;
      }
    }
  }

  /** The range of exactly one zone holds exactly that zone. */
  lemma RangeOfZone(zones: seq<Zone>, i: nat)
    requires Contiguous(zones) && i < |zones|
    ensures RangeLo(zones, zones[i].start) == i && RangeHi(zones, zones[i].start, zones[i].len) == i + 1
  {
    IndexUnique(zones, zones[i].start, i);
    IndexUnique(zones, zones[i].End() - 1, i);
  }

  function CommandIfAccepted(c: ZoneCommand, z: Zone): Zone {
    if Accepts(z) then AfterCommand(c, z) else z
  }

  function CommandedByte(s: DeviceState, c: ZoneCommand, lo: nat, hi: nat, k: nat): byte
    requires ValidState(s) && k < |s.data|
  {
    var i := IndexOf(s.zones, k / SECTOR_SIZE);
    if c.Reset? && lo <= i < hi && Accepts(s.zones[i]) then s.pattern else s.data[k]
  }

  /** Command `c` on exactly the zones `lo` to `hi - 1`, each judged by its own state: what the
      range command means, with no order of execution in it. */
  ghost function CommandRange(s: DeviceState, c: ZoneCommand, lo: nat, hi: nat): (r: DeviceState)
    requires ValidState(s)
    ensures |r.zones| == |s.zones| && SameConstants(r, s)
  {
    s.(zones := seq(|s.zones|, i requires 0 <= i < |s.zones| => CommandedZone(s, c, lo, hi, i)),
       data := seq(|s.data|, k requires 0 <= k < |s.data| => CommandedByte(s, c, lo, hi, k)))
  }

  function CommandedZone(s: DeviceState, c: ZoneCommand, lo: nat, hi: nat, i: nat): Zone
    requires i < |s.zones|
  {
    if lo <= i < hi then CommandIfAccepted(c, s.zones[i]) else s.zones[i]
  }

  function Issued(c: ZoneCommand, lo: nat, hi: nat): seq<(ZoneCommand, nat)>
    decreases hi
  {
    if hi <= lo then [] else Issued(c, lo, hi - 1) + [(c, hi - 1)]
  }

  lemma CommandRangeEmpty(s: DeviceState, c: ZoneCommand, lo: nat)
    requires ValidState(s)
    ensures CommandRange(s, c, lo, lo) == s
  {
    assert CommandRange(s, c, lo, lo).zones == s.zones;
    assert CommandRange(s, c, lo, lo).data == s.data;
  }

  lemma CommandRangeValid(s: DeviceState, c: ZoneCommand, lo: nat, hi: nat)
    requires ValidState(s)
    ensures ValidState(CommandRange(s, c, lo, hi)) && SameLayout(CommandRange(s, c, lo, hi).zones, s.zones)
  {
    var t := CommandRange(s, c, lo, hi);
    forall i: nat
      ensures ValidAt(t.zones, i)
      ensures i < |s.zones| ==> SameShape(t.zones[i], s.zones[i])
    {
      assert ValidAt(s.zones, i);
      if i < |s.zones| {
        CommandKeepsZone(c, s.zones[i]);
      }
    }
    ValidByLayout(s, t);
  }

  /** The byte written by a command on zone `hi` alone, seen from byte `k`. */
  lemma CommandZoneByte(s: DeviceState, t: DeviceState, c: ZoneCommand, lo: nat, hi: nat, k: nat)
    requires ValidState(s) && ValidState(t) && hi < |s.zones| && t == CommandRange(s, c, lo, hi) && k < |s.data|
    requires lo <= hi
    ensures SECTOR_SIZE * t.zones[hi].End() <= |t.data| && |CommandZone(t, c, hi).data| == |s.data|
    ensures CommandZone(t, c, hi).data[k] == CommandRange(s, c, lo, hi + 1).data[k]
  {
    ZoneInside(t, hi);
    var z := s.zones[hi];
    assert t.zones[hi] == z;
    if c.Reset? && z.start <= k / SECTOR_SIZE < z.End() {
      IndexUnique(s.zones, k / SECTOR_SIZE, hi);
    }
  }

  /** One more zone: commanding the zones of a range one after another, in ascending order, is the
      range command. */
  lemma CommandRangeStep(s: DeviceState, c: ZoneCommand, lo: nat, hi: nat)
    requires ValidState(s) && lo <= hi < |s.zones|
    ensures var t := CommandRange(s, c, lo, hi);
            && ValidState(t) && SameLayout(t.zones, s.zones) && t.zones[hi] == s.zones[hi]
            && SECTOR_SIZE * t.zones[hi].End() <= |t.data|
            && CommandZone(t, c, hi) == CommandRange(s, c, lo, hi + 1)
  {
    var t := CommandRange(s, c, lo, hi);
    CommandRangeValid(s, c, lo, hi);
    ZoneInside(t, hi);
    forall k | 0 <= k < |s.data|
      ensures |CommandZone(t, c, hi).data| == |s.data|
      ensures CommandZone(t, c, hi).data[k] == CommandRange(s, c, lo, hi + 1).data[k]
    {
      CommandZoneByte(s, t, c, lo, hi, k);
    }
    assert CommandZone(t, c, hi).data == CommandRange(s, c, lo, hi + 1).data;
    assert CommandZone(t, c, hi).zones == CommandRange(s, c, lo, hi + 1).zones;
  }
}
