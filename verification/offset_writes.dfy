/** Writes at sector offsets, without a handle: what the loop of `write_all_at` leaves of bytes and zones. */
module OffsetWrites {
  import opened ZonedTypes
  import opened DeviceModel

  /** How many of the device's bytes `from` to `to - 1` are in the zone. */
  function Overlap(z: Zone, from: nat, to: nat): nat {
    var lo := if from < SECTOR_SIZE * z.start then SECTOR_SIZE * z.start else from;
    var hi := if to < SECTOR_SIZE * z.End() then to else SECTOR_SIZE * z.End();
    if lo < hi then hi - lo else 0
  }

  /** From `s` to `t` only bytes `from` to `to - 1` and zones they reach have changed. */
  ghost predicate OnlyReached(s: DeviceState, t: DeviceState, from: nat, to: nat) {
    && |t.data| == |s.data| && |t.zones| == |s.zones|
    && (forall k :: 0 <= k < |s.data| && !(from <= k < to) ==> t.data[k] == s.data[k])
    && (forall i: nat :: UnlessReached(s, t, from, to, i))
  }

  ghost predicate UnlessReached(s: DeviceState, t: DeviceState, from: nat, to: nat, i: nat) {
    i < |s.zones| && Overlap(s.zones[i], from, to) == 0 ==> i < |t.zones| && t.zones[i] == s.zones[i]
  }

  /** From `s` to `t` exactly `bytes` were written at byte `from`, and each zone took its share of them. */
  ghost predicate WrittenAt(s: DeviceState, t: DeviceState, from: nat, bytes: seq<byte>) {
    && |t.zones| == |s.zones|
    && (if bytes == [] then t == s else from + |bytes| <= |s.data| && t.data == Splice(s.data, from, bytes))
    && SharesWritten(s, t, from, from + |bytes|)
  }

  ghost predicate SharesWritten(s: DeviceState, t: DeviceState, from: nat, to: nat) {
    forall i: nat :: ShareWritten(s, t, from, to, i)
  }

  ghost predicate ShareWritten(s: DeviceState, t: DeviceState, from: nat, to: nat, i: nat) {
    i < |s.zones| ==> i < |t.zones| && t.zones[i] == Written(s.zones[i], Overlap(s.zones[i], from, to))
  }

  /** Progress of `write_all_at` from `s`: the next piece goes to sector `offset`. */
  ghost predicate WrittenUpTo(s: DeviceState, t: DeviceState, sector: nat, offset: nat, buf: seq<byte>, done: nat) {
    && done <= |buf| && sector <= offset
    && (if done == 0 then offset == sector else SECTOR_SIZE * offset <= |s.data|)
    && SECTOR_SIZE * offset <= SECTOR_SIZE * sector + done
    && OnlyReached(s, t, SECTOR_SIZE * sector, SECTOR_SIZE * sector + done)
    && (|buf| % SECTOR_SIZE == 0 ==>
          && done % SECTOR_SIZE == 0
          && SECTOR_SIZE * offset == SECTOR_SIZE * sector + done
          && WrittenAt(s, t, SECTOR_SIZE * sector, buf[..done]))
  }

  lemma StartsThere(s: DeviceState, sector: nat, buf: seq<byte>)
    requires ValidState(s)
    ensures WrittenUpTo(s, s, sector, sector, buf, 0)
  {
    assert buf[..0] == [];
    var from := SECTOR_SIZE * sector;
    forall i: nat
      ensures ShareWritten(s, s, from, from, i)
    {
      assert ValidAt(s.zones, i);
    }
  }

  lemma OffsetFits(s: DeviceState, t: DeviceState, sector: nat, offset: nat, buf: seq<byte>, done: nat)
    requires ValidState(s) && WrittenUpTo(s, t, sector, offset, buf, done)
    ensures done <= |buf|
    ensures (if SECTOR_SIZE * sector < U64_END then SECTOR_SIZE * offset < U64_END else offset == sector)
  {
  }

  // ---------- the next piece ----------

  /** A run of conventional zones holds no other zone. */
  lemma {:induction false} RunAvoidsSequential(zones: seq<Zone>, i: nat, j: nat)
    requires Contiguous(zones) && i < |zones| && j < |zones| && i != j && !zones[j].zoneType.Conventional?
    ensures zones[j].End() <= zones[i].start || ConventionalEnd(zones, i) <= zones[j].start
    decreases |zones| - i
  {
    Ordered(zones);
    assert Adjacent(zones, i);
    if i + 1 < |zones| && zones[i + 1].zoneType.Conventional? {
      RunAvoidsSequential(zones, i + 1, j);
    } else {
    }
  }

  /** An accepted write lies inside its zone, or in a run of conventional zones. */
  lemma WriteReaches(s: DeviceState, sector: nat, n: nat, j: nat)
    requires ValidState(s) && WriteAllowed(s, sector, n, n) && j < |s.zones| && !s.zones[j].zoneType.Conventional?
    ensures j != IndexOf(s.zones, sector) ==>
              SECTOR_SIZE * sector + n <= SECTOR_SIZE * s.zones[j].start || SECTOR_SIZE * s.zones[j].End() <= SECTOR_SIZE * sector
    ensures j == IndexOf(s.zones, sector) ==>
              s.zones[j].start <= sector && SECTOR_SIZE * sector + n <= SECTOR_SIZE * s.zones[j].CapacityEnd()
  {
    var i := IndexOf(s.zones, sector);
    if j != i {
      assert ValidAt(s.zones, i);
      Ordered(s.zones);
      RunAvoidsSequential(s.zones, i, j);
    }
  }

  /** Two writes of whole sectors, one behind the other, move a zone's pointer as one of both. */
  lemma WrittenTwice(z: Zone, a: nat, b: nat)
    requires a % SECTOR_SIZE == 0 && b % SECTOR_SIZE == 0 && (z.writePointer.Some? && b > 0 ==> Written(z, a).Active())
    requires z.Valid() && Written(z, a).Valid()
    ensures Written(Written(z, a), b) == Written(z, a + b)
  {
    assert SectorsTouched(a) + SectorsTouched(b) == SectorsTouched(a + b);
  }

  lemma ShareGrows(s: DeviceState, t: DeviceState, from: nat, sector: nat, n: nat, i: nat)
    requires ValidState(s) && ValidState(t) && SameLayout(t.zones, s.zones) && i < |s.zones|
    requires from % SECTOR_SIZE == 0 && n % SECTOR_SIZE == 0 && from <= SECTOR_SIZE * sector
    requires WriteAllowed(t, sector, n, n) && ShareWritten(s, t, from, SECTOR_SIZE * sector, i)
    ensures var z := if i == IndexOf(t.zones, sector) then Written(t.zones[i], n) else t.zones[i];
            z == Written(s.zones[i], Overlap(s.zones[i], from, SECTOR_SIZE * sector + n))
  {
    assert ValidAt(s.zones, i) && ValidAt(t.zones, i) && SameShape(t.zones[i], s.zones[i]);
    if !s.zones[i].zoneType.Conventional? {
      WriteReaches(t, sector, n, i);
      var writes := i == IndexOf(t.zones, sector);
      hide ValidState, WriteAllowed;
      OverlapGrows(s.zones[i], from, sector, n, writes);
      if writes {
        WritePossible(t, sector, n);
        WrittenTwice(s.zones[i], Overlap(s.zones[i], from, SECTOR_SIZE * sector), n);
        assert Written(t.zones[i], n) == Written(s.zones[i], Overlap(s.zones[i], from, SECTOR_SIZE * sector + n));
      } else {
        assert t.zones[i] == Written(s.zones[i], Overlap(s.zones[i], from, SECTOR_SIZE * sector + n));
      }
    } else {
      assert s.zones[i].writePointer.None? && t.zones[i].writePointer.None?;
    }
  }

  lemma WritePossible(s: DeviceState, sector: nat, n: nat)
    requires ValidState(s) && WriteAllowed(s, sector, n, n)
    ensures s.zones[IndexOf(s.zones, sector)].writePointer.Some? ==> s.zones[IndexOf(s.zones, sector)].Active()
  {
    assert ValidAt(s.zones, IndexOf(s.zones, sector));
  }

  lemma OverlapGrows(z: Zone, from: nat, sector: nat, n: nat, writes: bool)
    requires from <= SECTOR_SIZE * sector && from % SECTOR_SIZE == 0
    requires if writes then z.start <= sector && SECTOR_SIZE * sector + n <= SECTOR_SIZE * z.End()
             else SECTOR_SIZE * sector + n <= SECTOR_SIZE * z.start || SECTOR_SIZE * z.End() <= SECTOR_SIZE * sector
    ensures Overlap(z, from, SECTOR_SIZE * sector + n) == Overlap(z, from, SECTOR_SIZE * sector) + if writes then n else 0
    ensures Overlap(z, from, SECTOR_SIZE * sector) % SECTOR_SIZE == 0
  {
  }

  /** The next accepted piece extends what was written. */
  lemma WriteContinues(s: DeviceState, t: DeviceState, sector: nat, offset: nat, buf: seq<byte>, done: nat, n: nat,
                       u: DeviceState)
    requires ValidState(s) && ValidState(t) && SameLayout(t.zones, s.zones)
    requires WrittenUpTo(s, t, sector, offset, buf, done)
    requires 0 < n && done + n <= |buf| && WriteAllowed(t, offset, |buf| - done, n)
    requires u == AfterWrite(t, offset, buf[done..done + n])
    ensures WrittenUpTo(s, u, sector, offset + n / SECTOR_SIZE, buf, done + n)
    ensures offset + n / SECTOR_SIZE < U64_END
  {
    hide ValidState, WriteAllowed, WrittenAt, SameLayout, IndexOf, AfterWrite;
    AllowedAlone(t, offset, |buf| - done, n);
    WriteInside(t, offset, n);
    ReachedGrows(s, t, SECTOR_SIZE * sector, offset, buf[done..done + n], SECTOR_SIZE * sector + done, u);
    if |buf| % SECTOR_SIZE == 0 {
      PlaceGrows(s, t, sector, offset, buf, done, n, u);
    }
  }

  lemma AllowedAlone(s: DeviceState, sector: nat, m: nat, n: nat)
    requires ValidState(s) && WriteAllowed(s, sector, m, n)
    ensures WriteAllowed(s, sector, n, n) && n <= m && (m % SECTOR_SIZE == 0 ==> n % SECTOR_SIZE == 0)
    ensures SECTOR_SIZE * sector + n < U64_END
  {
    WriteInside(s, sector, n);
  }

  lemma ReachedGrows(s: DeviceState, t: DeviceState, from: nat, offset: nat, bytes: seq<byte>, to: nat, u: DeviceState)
    requires ValidState(s) && ValidState(t) && SameLayout(t.zones, s.zones) && OnlyReached(s, t, from, to)
    requires bytes != [] && from <= SECTOR_SIZE * offset <= to
    requires WriteAllowed(t, offset, |bytes|, |bytes|) && u == AfterWrite(t, offset, bytes)
    ensures OnlyReached(s, u, from, to + |bytes|)
  {
    WriteInside(t, offset, |bytes|);
    var more := to + |bytes|;
    forall i: nat
      ensures UnlessReached(s, u, from, more, i)
    {
      assert UnlessReached(s, t, from, to, i);
      if i < |s.zones| {
        assert SameShape(t.zones[i], s.zones[i]);
      }
    }
  }

  lemma PlaceGrows(s: DeviceState, t: DeviceState, sector: nat, offset: nat, buf: seq<byte>, done: nat, n: nat,
                   u: DeviceState)
    requires ValidState(s) && ValidState(t) && SameLayout(t.zones, s.zones)
    requires done % SECTOR_SIZE == 0 && n % SECTOR_SIZE == 0 && 0 < n && done + n <= |buf|
    requires SECTOR_SIZE * offset == SECTOR_SIZE * sector + done && WrittenAt(s, t, SECTOR_SIZE * sector, buf[..done])
    requires WriteAllowed(t, offset, n, n) && u == AfterWrite(t, offset, buf[done..done + n])
    ensures WrittenAt(s, u, SECTOR_SIZE * sector, buf[..done + n])
  {
    hide ValidState, WriteAllowed, SharesWritten, SameLayout;
    WriteInside(t, offset, n);
    BytesGrow(s.data, t.data, SECTOR_SIZE * sector, buf, done, n);
    SharesGrow(s, t, SECTOR_SIZE * sector, offset, buf[done..done + n], u, SECTOR_SIZE * sector + done + n);
  }

  lemma SharesGrow(s: DeviceState, t: DeviceState, from: nat, sector: nat, bytes: seq<byte>, u: DeviceState, to: nat)
    requires ValidState(s) && ValidState(t) && SameLayout(t.zones, s.zones)
    requires from % SECTOR_SIZE == 0 && |bytes| % SECTOR_SIZE == 0 && from <= SECTOR_SIZE * sector
    requires WriteAllowed(t, sector, |bytes|, |bytes|) && u == AfterWrite(t, sector, bytes)
    requires SharesWritten(s, t, from, SECTOR_SIZE * sector) && to == SECTOR_SIZE * sector + |bytes|
    ensures SharesWritten(s, u, from, to)
  {
    WriteInside(t, sector, |bytes|);
    forall i: nat
      ensures ShareWritten(s, u, from, to, i)
    {
      assert ShareWritten(s, t, from, SECTOR_SIZE * sector, i);
      if i < |s.zones| {
        ShareGrows(s, t, from, sector, |bytes|, i);
      }
    }
  }

  lemma BytesGrow(data: seq<byte>, now: seq<byte>, from: nat, buf: seq<byte>, done: nat, n: nat)
    requires done + n <= |buf| && from + done + n <= |data|
    requires (if done == 0 then now == data else now == Splice(data, from, buf[..done]))
    ensures Splice(now, from + done, buf[done..done + n]) == Splice(data, from, buf[..done + n])
  {
    assert buf[..done] + buf[done..done + n] == buf[..done + n];
    if done == 0 {
      assert buf[..0] == [] && Splice(data, from, []) == data;
    }
    SpliceAppend(data, from, buf[..done], buf[done..done + n]);
  }

  // ---------- executions of the loop ----------

  /** From state `s`, with `buf` still to be written at sector `offset`, the calls of `write_all_at` that took
      `counts` bytes each lead to state `t`, with `rest` still to be written at sector `p`. */
  ghost predicate Calls(s: DeviceState, offset: nat, buf: seq<byte>, counts: seq<nat>, t: DeviceState, p: nat,
                        rest: seq<byte>)
    decreases |counts|
  {
    if counts == [] then
      t == s && p == offset && rest == buf
    else
      && Possible(s, offset, buf, counts[0])
      && Calls(AfterWrite(s, offset, buf[..counts[0]]), offset + counts[0] / SECTOR_SIZE, buf[counts[0]..], counts[1..], t, p, rest)
  }

  /** A call of the loop can take `n` bytes. */
  ghost predicate Possible(s: DeviceState, offset: nat, buf: seq<byte>, n: nat) {
    0 < n <= |buf| && ValidState(s) && WriteAllowed(s, offset, |buf|, n) && WriteAllowed(s, offset, n, n)
  }

  lemma {:induction false} OneMoreCall(s: DeviceState, offset: nat, buf: seq<byte>, counts: seq<nat>,
                                       t: DeviceState, p: nat, rest: seq<byte>, n: nat)
    requires Calls(s, offset, buf, counts, t, p, rest) && Possible(t, p, rest, n)
    ensures Calls(s, offset, buf, counts + [n], AfterWrite(t, p, rest[..n]), p + n / SECTOR_SIZE, rest[n..])
    decreases |counts|
  {
    hide Possible, AfterWrite, ValidState, WriteAllowed;
    var more := counts + [n];
    if counts == [] {
      assert more[1..] == [];
    } else {
      assert more[1..] == counts[1..] + [n];
      PossibleCall(s, offset, buf, counts[0]);
      OneMoreCall(AfterWrite(s, offset, buf[..counts[0]]), offset + counts[0] / SECTOR_SIZE, buf[counts[0]..], counts[1..], t, p, rest, n);
    }
  }

  lemma PossibleCall(s: DeviceState, offset: nat, buf: seq<byte>, n: nat)
    requires Possible(s, offset, buf, n)
    ensures 0 < n <= |buf| && ValidState(s) && WriteAllowed(s, offset, n, n)
  {
  }

  /** The loop is under way: what it has written, and the calls it has made. */
  ghost predicate Underway(s: DeviceState, t: DeviceState, sector: nat, offset: nat, buf: seq<byte>, done: nat,
                           counts: seq<nat>) {
    && WrittenUpTo(s, t, sector, offset, buf, done)
    && Calls(s, sector, buf, counts, t, offset, buf[done..])
  }

  lemma LoopBegins(s: DeviceState, sector: nat, buf: seq<byte>)
    requires ValidState(s)
    ensures Underway(s, s, sector, sector, buf, 0, [])
  {
    StartsThere(s, sector, buf);
  }

  lemma LoopEnds(s: DeviceState, t: DeviceState, sector: nat, offset: nat, buf: seq<byte>, done: nat, counts: seq<nat>)
    requires Underway(s, t, sector, offset, buf, done, counts)
    ensures done <= |buf| && Calls(s, sector, buf, counts, t, offset, buf[done..])
    ensures OnlyReached(s, t, SECTOR_SIZE * sector, SECTOR_SIZE * sector + done)
    ensures |buf| % SECTOR_SIZE == 0 ==>
              && done % SECTOR_SIZE == 0 && WrittenAt(s, t, SECTOR_SIZE * sector, buf[..done])
              && SECTOR_SIZE * offset == SECTOR_SIZE * sector + done
  {
  }

  lemma LoopGoesOn(s: DeviceState, t: DeviceState, sector: nat, offset: nat, buf: seq<byte>, done: nat,
                   counts: seq<nat>,
                   rest: seq<byte>, n: nat, u: DeviceState)
    requires ValidState(s) && ValidState(t) && SameLayout(t.zones, s.zones)
    requires Underway(s, t, sector, offset, buf, done, counts) && done <= |buf| && rest == buf[done..]
    requires 0 < n <= |rest| && WriteAllowed(t, offset, |rest|, n)
    requires WriteAllowed(t, offset, n, n) ==> u == AfterWrite(t, offset, rest[..n])
    ensures Underway(s, u, sector, offset + n / SECTOR_SIZE, buf, done + n, counts + [n])
    ensures offset + n / SECTOR_SIZE < U64_END
  {
    AllowedAlone(t, offset, |rest|, n);
    hide ValidState, SameLayout, WriteAllowed, WrittenUpTo, Calls, AfterWrite;
    assert rest[..n] == buf[done..done + n] && rest[n..] == buf[done + n..];
    WriteContinues(s, t, sector, offset, buf, done, n, u);
    OneMoreCall(s, sector, buf, counts, t, offset, rest, n);
  }

  // ---------- when the loop gets through ----------

  /** The device can take `m` bytes at `sector` in one write that ends in the zone it begins in. */
  ghost predicate FitsZone(s: DeviceState, sector: nat, m: nat) {
    && ValidState(s) && WriteAllowed(s, sector, m, m)
    && SECTOR_SIZE * sector + m <= SECTOR_SIZE * s.zones[IndexOf(s.zones, sector)].End()
  }

  /** After whole sectors of such a write, the device can take the next piece of it. */
  lemma StillTakes(s: DeviceState, t: DeviceState, sector: nat, offset: nat, m: nat, bytes: seq<byte>)
    requires FitsZone(s, sector, m) && ValidState(t) && SameLayout(t.zones, s.zones)
    requires |bytes| < m && m % SECTOR_SIZE == 0 && |bytes| % SECTOR_SIZE == 0
    requires WrittenAt(s, t, SECTOR_SIZE * sector, bytes) && SECTOR_SIZE * offset == SECTOR_SIZE * sector + |bytes|
    ensures WriteAllowed(t, offset, m - |bytes|, 0)
  {
    var i := IndexOf(s.zones, sector);
    var z := s.zones[i];
    assert ValidAt(s.zones, i) && SameShape(t.zones[i], z);
    assert ShareWritten(s, t, SECTOR_SIZE * sector, SECTOR_SIZE * sector + |bytes|, i);
    assert Overlap(z, SECTOR_SIZE * sector, SECTOR_SIZE * sector + |bytes|) == |bytes|;
    IndexUnique(t.zones, offset, i);
    ConventionalEndInside(t.zones, i);
  }
}
