/** Where `write_all_at` can report success although the device does not hold the buffer at the sector. */
module TornOffsetWrites {
  import opened ZonedTypes
  import opened DeviceModel
  import opened OffsetWrites
  import TornWrites

  /** `buf`, if there is any, lies at the sector. */
  ghost predicate PlacedAt(sector: nat, t: DeviceState, buf: seq<byte>) {
    buf != [] ==>
      && SECTOR_SIZE * sector + |buf| <= |t.data|
      && t.data[SECTOR_SIZE * sector..SECTOR_SIZE * sector + |buf|] == buf
  }

  /** For every buffer of this length, and however its calls are cut, success means that it is placed. */
  ghost predicate AlwaysPlacedAt(s: DeviceState, sector: nat, length: nat) {
    forall buf, counts, t, p ::
      |buf| == length && Calls(s, sector, buf, counts, t, p, []) ==> PlacedAt(sector, t, buf)
  }

  /** A write of `length` bytes at `sector`, inside zone `i`, can reach a writable conventional zone with two
      bytes or more still to be written: it begins in one, or it fills the rest of its sequential zone,
      which then has no gap at its end, and goes on so at the next zone. */
  predicate Reaches(zones: seq<Zone>, i: nat, sector: nat, length: nat)
    decreases |zones| - i
  {
    && i < |zones| && sector < zones[i].End()
    && if zones[i].zoneType.Conventional? then zones[i].condition.NotWritePointer? && length >= 2
       else
         && zones[i].Active() && zones[i].writePointer == Some(sector) && zones[i].capacity == zones[i].len
         && length > SECTOR_SIZE * (zones[i].End() - sector)
         && Reaches(zones, i + 1, zones[i].End(), length - SECTOR_SIZE * (zones[i].End() - sector))
  }

  /** Before the call: the buffer is not whole sectors, and reaches such a zone. */
  predicate TearsAt(s: DeviceState, sector: nat, length: nat)
    requires ValidState(s)
  {
    length % SECTOR_SIZE != 0 && sector < End(s.zones) && Reaches(s.zones, IndexOf(s.zones, sector), sector, length)
  }

  /** In one zone: only a writable conventional one tears, and only a length of 2 or more. */
  lemma TearsInOneZone(s: DeviceState, sector: nat, length: nat)
    requires ValidState(s) && sector < End(s.zones)
    requires SECTOR_SIZE * sector + length <= SECTOR_SIZE * s.zones[IndexOf(s.zones, sector)].End()
    ensures var z := s.zones[IndexOf(s.zones, sector)];
            TearsAt(s, sector, length) <==>
            length % SECTOR_SIZE != 0 && length >= 2 && z.zoneType.Conventional? && z.condition.NotWritePointer?
  {
  }

  lemma {:induction false} ReachesSame(a: seq<Zone>, b: seq<Zone>, i: nat, sector: nat, length: nat)
    requires |a| == |b| && forall j :: i <= j < |a| ==> a[j] == b[j]
    ensures Reaches(a, i, sector, length) <==> Reaches(b, i, sector, length)
    decreases |a| - i
  {
    if i >= |a| {
    } else if length > SECTOR_SIZE * (a[i].End() - sector) && sector < a[i].End() {
      ReachesSame(a, b, i + 1, a[i].End(), length - SECTOR_SIZE * (a[i].End() - sector));
    }
  }

  // ---------- untorn writes are placed ----------

  /** What one accepted write does to bytes before it and to its own. */
  lemma OneCall(s: DeviceState, offset: nat, buf: seq<byte>, n: nat, t: DeviceState)
    requires Possible(s, offset, buf, n) && t == AfterWrite(s, offset, buf[..n])
    ensures ValidState(t) && SameLayout(t.zones, s.zones)
    ensures |t.data| == |s.data| && SECTOR_SIZE * offset + n <= |t.data|
    ensures forall k :: 0 <= k < SECTOR_SIZE * offset ==> t.data[k] == s.data[k]
    ensures forall k :: 0 <= k < n ==> t.data[SECTOR_SIZE * offset + k] == buf[k]
    ensures |buf| % SECTOR_SIZE == 0 ==> n % SECTOR_SIZE == 0
    ensures offset < End(s.zones)
    ensures t.zones == s.zones[IndexOf(s.zones, offset) := Written(s.zones[IndexOf(s.zones, offset)], n)]
  {
    WriteInside(s, offset, n);
    WriteValid(s, offset, buf[..n]);
  }

  /** A call that stops inside a sector of a sequential zone leaves no further call possible. */
  lemma TornSequentialStops(s: DeviceState, offset: nat, buf: seq<byte>, n: nat, t: DeviceState, m: nat)
    requires Possible(s, offset, buf, n) && t == AfterWrite(s, offset, buf[..n]) && n % SECTOR_SIZE != 0
    requires !s.zones[IndexOf(s.zones, offset)].zoneType.Conventional?
    ensures !Possible(t, offset + n / SECTOR_SIZE, buf[n..], m)
  {
    OneCall(s, offset, buf, n, t);
    var i := IndexOf(s.zones, offset);
    assert ValidAt(s.zones, i) && SameShape(t.zones[i], s.zones[i]);
    IndexUnique(t.zones, offset + n / SECTOR_SIZE, i);
  }

  /** Where a call is possible. */
  lemma PossibleZone(s: DeviceState, offset: nat, buf: seq<byte>, n: nat)
    requires Possible(s, offset, buf, n)
    ensures 0 < n <= |buf| && ValidState(s) && offset < End(s.zones)
    ensures var z := s.zones[IndexOf(s.zones, offset)];
            && z.Valid()
            && if z.zoneType.Conventional? then z.condition.NotWritePointer?
               else z.Active() && z.writePointer == Some(offset) && SECTOR_SIZE * offset + n <= SECTOR_SIZE * z.CapacityEnd()
  {
    assert ValidAt(s.zones, IndexOf(s.zones, offset));
  }

  /** After a call of whole sectors the rest tears only if all of it did. */
  lemma RestTears(s: DeviceState, offset: nat, buf: seq<byte>, n: nat, t: DeviceState)
    requires Possible(s, offset, buf, n) && t == AfterWrite(s, offset, buf[..n]) && n % SECTOR_SIZE == 0
    requires ValidState(t) && TearsAt(t, offset + n / SECTOR_SIZE, |buf| - n)
    ensures TearsAt(s, offset, |buf|)
  {
    hide Possible, AfterWrite, WriteAllowed, Written, ValidState, Reaches;
    OneCall(s, offset, buf, n, t);
    PossibleZone(s, offset, buf, n);
    ZonesInOrder(s);
    ZonesInOrder(t);
    var i, next := IndexOf(s.zones, offset), offset + n / SECTOR_SIZE;
    assert SameShape(t.zones[i], s.zones[i]);
    RestReaches(s.zones, t.zones, i, offset, next, |buf|, n);
  }

  lemma ZonesInOrder(s: DeviceState)
    requires ValidState(s)
    ensures Contiguous(s.zones) && |s.data| == SECTOR_SIZE * End(s.zones)
  {
  }

  /** The same for the zones alone, the call having been made in zone `i`. */
  lemma RestReaches(a: seq<Zone>, b: seq<Zone>, i: nat, offset: nat, next: nat, length: nat, n: nat)
    requires Contiguous(a) && Contiguous(b) && SameLayout(b, a) && i < |a| && a[i].start <= offset < a[i].End()
    requires b == a[i := Written(a[i], n)] && a[i].Valid()
    requires 0 < n <= length && n % SECTOR_SIZE == 0 && next == offset + n / SECTOR_SIZE && length % SECTOR_SIZE != 0
    requires if a[i].zoneType.Conventional? then a[i].condition.NotWritePointer?
             else a[i].Active() && a[i].writePointer == Some(offset) && next <= a[i].CapacityEnd()
    requires next < End(b) && Reaches(b, IndexOf(b, next), next, length - n)
    ensures Reaches(a, i, offset, length)
  {
    assert SameShape(b[i], a[i]);
    hide Written, SameLayout, Contiguous;
    if !a[i].zoneType.Conventional? {
      if next < a[i].End() {
        IndexUnique(b, next, i);
        SameZoneReaches(a, b, i, offset, next, length, n);
      } else {
        NextZone(a, b, i, next);
        ReachesSame(a, b, i + 1, next, length - n);
      }
    }
  }

  lemma SameZoneReaches(a: seq<Zone>, b: seq<Zone>, i: nat, offset: nat, next: nat, length: nat, n: nat)
    requires i < |a| == |b| && !a[i].zoneType.Conventional? && b[i] == Written(a[i], n) && SameShape(b[i], a[i])
    requires forall j :: i < j < |a| ==> a[j] == b[j]
    requires a[i].Active() && a[i].writePointer == Some(offset)
    requires n % SECTOR_SIZE == 0 && next == offset + n / SECTOR_SIZE
    requires next < a[i].End() && n <= length && Reaches(b, i, next, length - n)
    ensures Reaches(a, i, offset, length)
  {
    ReachesSame(a, b, i + 1, a[i].End(), length - SECTOR_SIZE * (a[i].End() - offset));
  }

  lemma NextZone(a: seq<Zone>, b: seq<Zone>, i: nat, sector: nat)
    requires Contiguous(a) && Contiguous(b) && SameLayout(b, a) && i < |a| && sector == a[i].End() && sector < End(b)
    ensures i + 1 < |a| && IndexOf(b, sector) == i + 1
  {
    assert Adjacent(a, i) && SameShape(b[i], a[i]);
    Ordered(b);
    if i + 1 < |a| {
      assert SameShape(b[i + 1], a[i + 1]);
      IndexUnique(b, sector, i + 1);
    }
  }

  /** Bytes before `from` are the same. */
  ghost predicate SameBefore(s: DeviceState, t: DeviceState, from: nat) {
    |t.data| == |s.data| && forall k :: 0 <= k < from && k < |s.data| ==> t.data[k] == s.data[k]
  }

  /** What the first call placed and what the others placed behind it are the whole buffer. */
  lemma PlacedTogether(s: DeviceState, offset: nat, buf: seq<byte>, n: nat, u: DeviceState, t: DeviceState)
    requires Possible(s, offset, buf, n) && u == AfterWrite(s, offset, buf[..n]) && n % SECTOR_SIZE == 0 && n < |buf|
    requires PlacedAt(offset + n / SECTOR_SIZE, t, buf[n..])
    requires SameBefore(u, t, SECTOR_SIZE * (offset + n / SECTOR_SIZE))
    ensures PlacedAt(offset, t, buf) && SameBefore(s, t, SECTOR_SIZE * offset)
  {
    OneCall(s, offset, buf, n, u);
    hide Possible, AfterWrite, ValidState;
    var from := SECTOR_SIZE * offset;
    assert SECTOR_SIZE * (offset + n / SECTOR_SIZE) == from + n;
    forall k | 0 <= k < |buf|
      ensures t.data[from + k] == buf[k]
    {
      if k < n {
        assert t.data[from + k] == u.data[from + k];
      } else {
        assert t.data[from + n..from + n + |buf[n..]|][k - n] == buf[n..][k - n];
      }
    }
  }

  lemma PlacedAtOnce(s: DeviceState, offset: nat, buf: seq<byte>, t: DeviceState)
    requires Possible(s, offset, buf, |buf|) && t == AfterWrite(s, offset, buf[..|buf|])
    ensures PlacedAt(offset, t, buf) && SameBefore(s, t, SECTOR_SIZE * offset)
  {
    OneCall(s, offset, buf, |buf|, t);
  }

  lemma NothingLeftToCall(s: DeviceState, offset: nat, counts: seq<nat>, t: DeviceState, p: nat)
    requires Calls(s, offset, [], counts, t, p, [])
    ensures t == s
  {
  }

  /** A call inside a sector can be followed by another one only where the buffer tears. */
  lemma TornGoesOn(s: DeviceState, offset: nat, buf: seq<byte>, n: nat, counts: seq<nat>, u: DeviceState,
                   t: DeviceState, p: nat)
    requires Possible(s, offset, buf, n) && u == AfterWrite(s, offset, buf[..n]) && n % SECTOR_SIZE != 0 && n < |buf|
    requires Calls(u, offset + n / SECTOR_SIZE, buf[n..], counts, t, p, [])
    ensures TearsAt(s, offset, |buf|)
  {
    OneCall(s, offset, buf, n, u);
    assert counts != [] && Possible(u, offset + n / SECTOR_SIZE, buf[n..], counts[0]);
    if !s.zones[IndexOf(s.zones, offset)].zoneType.Conventional? {
      TornSequentialStops(s, offset, buf, n, u, counts[0]);
    }
  }

  /** A successful execution that cannot tear places the buffer and leaves the bytes before it. */
  lemma {:induction false} PlacedUnlessTornAt(s: DeviceState, offset: nat, buf: seq<byte>, counts: seq<nat>,
                                              t: DeviceState, p: nat)
    requires ValidState(s) && !TearsAt(s, offset, |buf|)
    requires Calls(s, offset, buf, counts, t, p, [])
    ensures PlacedAt(offset, t, buf) && SameBefore(s, t, SECTOR_SIZE * offset)
    decreases |counts|
  {
    hide ValidState, Possible, AfterWrite, TearsAt, PlacedAt, SameBefore;
    if counts == [] {
      PlacedEmpty(s, offset);
    } else {
      var n, next := counts[0], offset + counts[0] / SECTOR_SIZE;
      PossibleCall(s, offset, buf, n);
      var u := AfterWrite(s, offset, buf[..n]);
      OneCall(s, offset, buf, n, u);
      if n == |buf| {
        assert buf[n..] == [];
        NothingLeftToCall(u, next, counts[1..], t, p);
        PlacedAtOnce(s, offset, buf, u);
      } else if n % SECTOR_SIZE != 0 {
        TornGoesOn(s, offset, buf, n, counts[1..], u, t, p);
      } else {
        if TearsAt(u, next, |buf| - n) {
          RestTears(s, offset, buf, n, u);
        }
        PlacedUnlessTornAt(u, next, buf[n..], counts[1..], t, p);
        PlacedTogether(s, offset, buf, n, u, t);
      }
    }
  }

  lemma PlacedEmpty(s: DeviceState, offset: nat)
    ensures PlacedAt(offset, s, []) && SameBefore(s, s, SECTOR_SIZE * offset)
  {
  }

  // ---------- torn writes ----------

  /** How many bytes are placed before the write begins to tear. */
  function PlacedBefore(zones: seq<Zone>, i: nat, sector: nat, length: nat): (c: nat)
    requires Reaches(zones, i, sector, length)
    ensures c + 2 <= length
    decreases |zones| - i
  {
    if zones[i].zoneType.Conventional? then 0 else
      var room := SECTOR_SIZE * (zones[i].End() - sector);
      room + PlacedBefore(zones, i + 1, zones[i].End(), length - room)
  }

  lemma {:induction false} PlacedBeforeSame(a: seq<Zone>, b: seq<Zone>, i: nat, sector: nat, length: nat)
    requires |a| == |b| && (forall j :: i <= j < |a| ==> a[j] == b[j]) && Reaches(a, i, sector, length)
    ensures Reaches(b, i, sector, length) && PlacedBefore(a, i, sector, length) == PlacedBefore(b, i, sector, length)
    decreases |a| - i
  {
    ReachesSame(a, b, i, sector, length);
    if a[i].zoneType.Conventional? {
    } else {
      PlacedBeforeSame(a, b, i + 1, a[i].End(), length - SECTOR_SIZE * (a[i].End() - sector));
    }
  }

  /** The sector lies in a writable conventional zone. */
  ghost predicate OnConventional(s: DeviceState, offset: nat) {
    && ValidState(s) && offset < End(s.zones)
    && s.zones[IndexOf(s.zones, offset)].zoneType.Conventional?
    && s.zones[IndexOf(s.zones, offset)].condition.NotWritePointer?
  }

  /** There a call can take less than a sector, and the next one goes to the same sector. */
  lemma CallInsideSectorAt(s: DeviceState, offset: nat, buf: seq<byte>, n: nat)
    requires OnConventional(s, offset) && |buf| % SECTOR_SIZE != 0 && 0 < n <= |buf| && n < SECTOR_SIZE
    ensures Possible(s, offset, buf, n) && OnConventional(AfterWrite(s, offset, buf[..n]), offset)
    ensures offset + n / SECTOR_SIZE == offset
    ensures var t := AfterWrite(s, offset, buf[..n]);
            SECTOR_SIZE * offset < |t.data| && t.data[SECTOR_SIZE * offset] == buf[0]
  {
    var i := IndexOf(s.zones, offset);
    assert ValidAt(s.zones, i);
    ConventionalEndInside(s.zones, i);
    var t := AfterWrite(s, offset, buf[..n]);
    OneCall(s, offset, buf, n, t);
    assert t.zones == s.zones;
  }

  /** Calls that each take less than a sector go on to the end of the buffer; each overwrites the last. */
  lemma {:induction false} TornCalls(s: DeviceState, offset: nat, buf: seq<byte>) returns (counts: seq<nat>,
                                     t: DeviceState, p: nat)
    requires OnConventional(s, offset) && |buf| % SECTOR_SIZE != 0 && forall k :: 0 <= k < |buf| ==> buf[k] == 1
    ensures Calls(s, offset, buf, counts, t, p, [])
    ensures SECTOR_SIZE * offset < |t.data| && t.data[SECTOR_SIZE * offset] == 1
    decreases |buf|
  {
    hide OnConventional, Possible, AfterWrite, TornWrites.TornCount;
    var n := TornWrites.TornCount(|buf|);
    CallInsideSectorAt(s, offset, buf, n);
    PossibleCall(s, offset, buf, n);
    var u := AfterWrite(s, offset, buf[..n]);
    if n == |buf| {
      assert buf[n..] == [];
      counts, t, p := [], u, offset;
    } else {
      counts, t, p := TornCalls(u, offset, buf[n..]);
    }
    CallFirst(s, offset, buf, n, u, offset, counts, t, p);
    counts := [n] + counts;
  }

  lemma CallFirst(s: DeviceState, offset: nat, buf: seq<byte>, n: nat, u: DeviceState, next: nat,
                  counts: seq<nat>, t: DeviceState, p: nat)
    requires Possible(s, offset, buf, n) && u == AfterWrite(s, offset, buf[..n]) && next == offset + n / SECTOR_SIZE
    requires Calls(u, next, buf[n..], counts, t, p, [])
    ensures Calls(s, offset, buf, [n] + counts, t, p, [])
  {
    hide Possible, AfterWrite;
    assert ([n] + counts)[1..] == counts;
  }

  /** A call can fill the rest of a sequential zone. */
  lemma FillPossible(s: DeviceState, i: nat, offset: nat, buf: seq<byte>)
    requires ValidState(s) && |buf| % SECTOR_SIZE != 0 && i < |s.zones| && s.zones[i].start <= offset
    requires Reaches(s.zones, i, offset, |buf|) && !s.zones[i].zoneType.Conventional?
    ensures Possible(s, offset, buf, SECTOR_SIZE * (s.zones[i].End() - offset))
  {
    IndexUnique(s.zones, offset, i);
    assert ValidAt(s.zones, i);
  }

  lemma FillZone(s: DeviceState, i: nat, offset: nat, buf: seq<byte>, room: nat, u: DeviceState)
    requires ValidState(s) && |buf| % SECTOR_SIZE != 0 && i < |s.zones| && s.zones[i].start <= offset
    requires Reaches(s.zones, i, offset, |buf|) && !s.zones[i].zoneType.Conventional?
    requires room == SECTOR_SIZE * (s.zones[i].End() - offset)
    requires Possible(s, offset, buf, room) && u == AfterWrite(s, offset, buf[..room])
    ensures offset + room / SECTOR_SIZE == s.zones[i].End()
    ensures ValidState(u) && |u.zones| == |s.zones| && i + 1 < |u.zones| && u.zones[i + 1].start == s.zones[i].End()
    ensures Reaches(u.zones, i + 1, s.zones[i].End(), |buf| - room)
    ensures PlacedBefore(s.zones, i, offset, |buf|) == room + PlacedBefore(u.zones, i + 1, s.zones[i].End(), |buf| - room)
  {
    assert ValidAt(s.zones, i) && Adjacent(s.zones, i) && Contiguous(s.zones);
    hide ValidState, Possible, AfterWrite, Written, Contiguous;
    PossibleCall(s, offset, buf, room);
    IndexUnique(s.zones, offset, i);
    OneCall(s, offset, buf, room, u);
    PlacedBeforeSame(s.zones, u.zones, i + 1, s.zones[i].End(), |buf| - room);
  }

  lemma TornHere(s: DeviceState, i: nat, offset: nat, buf: seq<byte>) returns (counts: seq<nat>, t: DeviceState, p: nat)
    requires ValidState(s) && |buf| % SECTOR_SIZE != 0 && i < |s.zones| && s.zones[i].start <= offset
    requires Reaches(s.zones, i, offset, |buf|) && s.zones[i].zoneType.Conventional?
    requires forall k :: 0 < k < |buf| ==> buf[k] == 1
    ensures Calls(s, offset, buf, counts, t, p, [])
    ensures SECTOR_SIZE * offset < |t.data| && t.data[SECTOR_SIZE * offset] == 1
  {
    IndexUnique(s.zones, offset, i);
    var n := TornWrites.FirstCount(|buf|);
    hide Possible, AfterWrite, ValidState, TornWrites.FirstCount, Reaches;
    CallInsideSectorAt(s, offset, buf, n);
    PossibleCall(s, offset, buf, n);
    var u := AfterWrite(s, offset, buf[..n]);
    counts, t, p := TornCalls(u, offset, buf[n..]);
    CallFirst(s, offset, buf, n, u, offset, counts, t, p);
    counts := [n] + counts;
  }

  /** A write that reaches such a zone can go on to its end and overwrite its own bytes there. */
  lemma {:induction false} TornFrom(s: DeviceState, i: nat, offset: nat, buf: seq<byte>)
    returns (counts: seq<nat>, t: DeviceState, p: nat)
    requires ValidState(s) && |buf| % SECTOR_SIZE != 0 && i < |s.zones| && s.zones[i].start <= offset
    requires Reaches(s.zones, i, offset, |buf|)
    requires forall k :: PlacedBefore(s.zones, i, offset, |buf|) < k < |buf| ==> buf[k] == 1
    ensures Calls(s, offset, buf, counts, t, p, [])
    ensures var c := SECTOR_SIZE * offset + PlacedBefore(s.zones, i, offset, |buf|);
            c < |t.data| && t.data[c] == 1
    decreases |s.zones| - i
  {
    hide Possible, AfterWrite, ValidState;
    if s.zones[i].zoneType.Conventional? {
      counts, t, p := TornHere(s, i, offset, buf);
    } else {
      var room, next := SECTOR_SIZE * (s.zones[i].End() - offset), s.zones[i].End();
      FillPossible(s, i, offset, buf);
      PossibleCall(s, offset, buf, room);
      var u := AfterWrite(s, offset, buf[..room]);
      FillZone(s, i, offset, buf, room, u);
      counts, t, p := TornFrom(u, i + 1, next, buf[room..]);
      CallFirst(s, offset, buf, room, u, next, counts, t, p);
      counts := [room] + counts;
    }
  }

  /** Wherever a buffer of this length tears, there are one and calls with which `write_all_at` overwrites its
      own bytes and still succeeds. */
  lemma WriteAllAtOverwritesItself(s: DeviceState, sector: nat, length: nat)
    returns (buf: seq<byte>, counts: seq<nat>, t: DeviceState, p: nat)
    requires ValidState(s) && TearsAt(s, sector, length)
    ensures |buf| == length && Calls(s, sector, buf, counts, t, p, []) && !PlacedAt(sector, t, buf)
  {
    var i := IndexOf(s.zones, sector);
    var c := PlacedBefore(s.zones, i, sector, length);
    buf := seq(length, k => if k <= c then 0 else 1);
    counts, t, p := TornFrom(s, i, sector, buf);
    OtherByte(sector, t, buf, c);
  }

  lemma OtherByte(sector: nat, t: DeviceState, buf: seq<byte>, c: nat)
    requires c < |buf| && SECTOR_SIZE * sector + c < |t.data| && t.data[SECTOR_SIZE * sector + c] != buf[c]
    ensures !PlacedAt(sector, t, buf)
  {
    var from := SECTOR_SIZE * sector;
    assert from + |buf| <= |t.data| ==> t.data[from..from + |buf|][c] == t.data[from + c];
  }

  /** Success of `write_all_at` is to be trusted for every buffer of a length exactly when the length is whole
      sectors, or does not reach a writable conventional zone with two bytes or more to go. */
  lemma WriteAllAtPlacesExactly(s: DeviceState, sector: nat, length: nat)
    requires ValidState(s)
    ensures AlwaysPlacedAt(s, sector, length) <==> !TearsAt(s, sector, length)
  {
    hide ValidState, Calls, PlacedAt, TearsAt;
    if TearsAt(s, sector, length) {
      var buf, counts, t, p := WriteAllAtOverwritesItself(s, sector, length);
    } else {
      forall buf, counts, t, p | |buf| == length && Calls(s, sector, buf, counts, t, p, [])
        ensures PlacedAt(sector, t, buf)
      {
        PlacedUnlessTornAt(s, sector, buf, counts, t, p);
      }
    }
  }
}
