/** One operation through a handle and the zones of others: what it leaves alone, and which writes reach
    past their own zone. */
module ZoneIsolation {
  import opened ZonedTypes
  import opened DeviceModel
  import opened HandleModel

  // ---------- one operation ----------

  /** The write ends inside the handle's own zone. */
  predicate Contained(h: HandleState, e: HandleEvent) {
    e.Wrote? ==> SECTOR_SIZE * h.writePointer + e.n <= SECTOR_SIZE * (h.start + h.len)
  }

  /** In a zone that is not conventional every write is contained. */
  lemma SequentialIsContained(s: DeviceState, h: HandleState, e: HandleEvent)
    requires ValidPair(s, h) && Enabled(s, h, e) && !s.zones[h.index].zoneType.Conventional?
    ensures Contained(h, e)
  {
    if e.Wrote? {
      assert ValidAt(s.zones, h.index);
      IndexUnique(s.zones, h.writePointer, h.index);
    }
  }

  /** Before the call: may this write run into the next zone? Only from a writable conventional zone with
      another one behind it, and with a buffer that reaches past the zone's end. */
  ghost predicate MayCross(s: DeviceState, h: HandleState, buf: seq<byte>) {
    && TakesWrites(s, h) && s.zones[h.index].zoneType.Conventional?
    && h.index + 1 < |s.zones| && s.zones[h.index + 1].zoneType.Conventional?
    && SECTOR_SIZE * h.writePointer + |buf| > SECTOR_SIZE * (h.start + h.len)
  }

  /** The least count that takes such a write into the next zone. */
  function CrossingCount(h: HandleState, buf: seq<byte>): nat {
    (if h.writePointer <= h.start + h.len then SECTOR_SIZE * (h.start + h.len - h.writePointer) else 0)
    + if |buf| % SECTOR_SIZE == 0 then SECTOR_SIZE else 1
  }

  lemma CrossingIsEnabled(s: DeviceState, h: HandleState, buf: seq<byte>)
    requires ValidPair(s, h) && MayCross(s, h, buf)
    ensures Enabled(s, h, Wrote(buf, CrossingCount(h, buf))) && !Contained(h, Wrote(buf, CrossingCount(h, buf)))
  {
    assert ValidAt(s.zones, h.index) && Adjacent(s.zones, h.index);
    ConventionalEndInside(s.zones, h.index + 1);
    EnabledCounts(s, h, buf, CrossingCount(h, buf));
  }

  /** A write is sure to end in its own zone, whatever the device takes of it, exactly when it may not
      cross. */
  lemma ContainedExactly(s: DeviceState, h: HandleState, buf: seq<byte>)
    requires ValidPair(s, h)
    ensures (forall n: nat :: Enabled(s, h, Wrote(buf, n)) ==> Contained(h, Wrote(buf, n))) <==> !MayCross(s, h, buf)
  {
    if MayCross(s, h, buf) {
      CrossingIsEnabled(s, h, buf);
    } else {
      forall n: nat | Enabled(s, h, Wrote(buf, n))
        ensures Contained(h, Wrote(buf, n))
      {
        StaysInZone(s, h, buf, n);
      }
    }
  }

  lemma StaysInZone(s: DeviceState, h: HandleState, buf: seq<byte>, n: nat)
    requires ValidPair(s, h) && !MayCross(s, h, buf) && Enabled(s, h, Wrote(buf, n))
    ensures Contained(h, Wrote(buf, n))
  {
    EnabledCounts(s, h, buf, n);
    assert ValidAt(s.zones, h.index);
  }

  /** What the event makes of the handle's zone, seen from that zone alone. */
  function ZoneAfter(z: Zone, e: HandleEvent): Zone {
    match e
    case Wrote(_, n) => Written(z, n)
    case Commanded(c) => CommandIfAccepted(c, z)
    case Failed => z
  }

  /** Where in the device's bytes the event writes. */
  function WrittenFrom(h: HandleState, e: HandleEvent): nat {
    if e.Wrote? then SECTOR_SIZE * h.writePointer else SECTOR_SIZE * h.start
  }

  /** What the event writes there, seen from the handle's zone alone. */
  function WrittenBytes(z: Zone, e: HandleEvent, pattern: byte): seq<byte> {
    match e
    case Wrote(buf, n) => if n <= |buf| then buf[..n] else []
    case Commanded(c) => if c.Reset? && Accepts(z) then Fill(SECTOR_SIZE * z.len, pattern) else []
    case Failed => []
  }

  /** Every contained event is an update of the handle's own zone and of bytes inside it. */
  lemma EventIsUpdate(s: DeviceState, h: HandleState, e: HandleEvent, off: nat, bytes: seq<byte>)
    requires ValidPair(s, h) && Enabled(s, h, e) && Contained(h, e)
    requires off == WrittenFrom(h, e) && bytes == WrittenBytes(s.zones[h.index], e, s.pattern)
    ensures SECTOR_SIZE * h.start <= off && off + |bytes| <= SECTOR_SIZE * (h.start + h.len) <= |s.data|
    ensures DevAfter(s, h, e) == Update(s, h.index, ZoneAfter(s.zones[h.index], e), off, bytes)
  {
    ZoneInside(s, h.index);
    assert ValidAt(s.zones, h.index);
    if e.Wrote? {
      WriteInside(s, h.writePointer, e.n);
      IndexUnique(s.zones, h.writePointer, h.index);
    } else if DevAfter(s, h, e) == s {
      UpdateNothing(s, h.index, off);
    }
  }

  lemma UpdateNothing(s: DeviceState, i: nat, off: nat)
    requires i < |s.zones| && off <= |s.data|
    ensures Update(s, i, s.zones[i], off, []) == s
  {
    assert Splice(s.data, off, []) == s.data;
    assert s.zones[i := s.zones[i]] == s.zones;
  }

  /** A contained operation leaves the descriptor and the bytes of every other zone alone. */
  lemma NonInterference(s: DeviceState, h: HandleState, e: HandleEvent, j: nat)
    requires ValidPair(s, h) && Enabled(s, h, e) && Contained(h, e) && j < |s.zones| && j != h.index
    ensures var t := DevAfter(s, h, e);
            && |t.zones| == |s.zones| && t.zones[j] == s.zones[j]
            && SECTOR_SIZE * s.zones[j].End() <= |s.data| == |t.data|
            && t.data[SECTOR_SIZE * s.zones[j].start..SECTOR_SIZE * s.zones[j].End()]
               == s.data[SECTOR_SIZE * s.zones[j].start..SECTOR_SIZE * s.zones[j].End()]
  {
    EventIsUpdate(s, h, e, WrittenFrom(h, e), WrittenBytes(s.zones[h.index], e, s.pattern));
    ZoneInside(s, j);
    Ordered(s.zones);
  }

  /** The condition is exact: a write that is not contained, which only a conventional zone allows,
      puts the rest of its bytes into the next zone. */
  lemma CrossingOverwrites(s: DeviceState, h: HandleState, e: HandleEvent, k: nat)
    requires ValidPair(s, h) && Enabled(s, h, e) && !Contained(h, e)
    requires SECTOR_SIZE * (h.start + h.len) <= k < SECTOR_SIZE * h.writePointer + e.n
    ensures h.index + 1 < |s.zones| && s.zones[h.index + 1].zoneType.Conventional?
    ensures s.zones[h.index + 1].start == h.start + h.len
    ensures k < |s.data| == |DevAfter(s, h, e).data| && e.Wrote? && e.n <= |e.buf|
    ensures SECTOR_SIZE * h.writePointer <= k
    ensures DevAfter(s, h, e).data[k] == e.buf[k - SECTOR_SIZE * h.writePointer]
  {
    assert ValidAt(s.zones, h.index);
    IndexUnique(s.zones, h.writePointer, h.index);
    WriteInside(s, h.writePointer, e.n);
    assert Adjacent(s.zones, h.index);
  }

  // ---------- runs of operations ----------

  /** Descriptor and bytes of zone `j` are the same in both states. */
  ghost predicate KeepsZone(s: DeviceState, t: DeviceState, j: nat) {
    j < |s.zones| ==>
      && |t.zones| == |s.zones| && t.zones[j] == s.zones[j]
      && SECTOR_SIZE * s.zones[j].End() <= |s.data| == |t.data|
      && t.data[SECTOR_SIZE * s.zones[j].start..SECTOR_SIZE * s.zones[j].End()]
         == s.data[SECTOR_SIZE * s.zones[j].start..SECTOR_SIZE * s.zones[j].End()]
  }

  /** From `s` to `t` the layout stayed, and every zone but `i` is as it was. */
  ghost predicate KeepsOthers(s: DeviceState, t: DeviceState, i: nat) {
    SameLayout(t.zones, s.zones) && forall j: nat :: j != i ==> KeepsZone(s, t, j)
  }

  /** Zone `i` is not one whose writes can reach into others. */
  ghost predicate Isolated(s: DeviceState, i: nat) {
    i < |s.zones| && (|s.zones| == 1 || !s.zones[i].zoneType.Conventional?)
  }

  lemma KeepsOthersStart(s: DeviceState, i: nat)
    requires ValidState(s)
    ensures KeepsOthers(s, s, i)
  {
    forall j: nat
      ensures KeepsZone(s, s, j)
    {
      if j < |s.zones| {
        ZoneInside(s, j);
      }
    }
  }

  lemma KeepsOthersOn(s: DeviceState, t: DeviceState, u: DeviceState, i: nat)
    requires KeepsOthers(s, t, i) && KeepsOthers(t, u, i)
    ensures KeepsOthers(s, u, i)
  {
    forall j: nat | j != i
      ensures KeepsZone(s, u, j)
    {
      assert KeepsZone(s, t, j) && KeepsZone(t, u, j);
    }
    forall j | 0 <= j < |s.zones|
      ensures |u.zones| == |s.zones| && SameShape(u.zones[j], s.zones[j])
    {
      assert SameShape(t.zones[j], s.zones[j]) && SameShape(u.zones[j], t.zones[j]);
    }
  }

  lemma EventKeepsOthers(s: DeviceState, h: HandleState, e: HandleEvent)
    requires ValidPair(s, h) && Enabled(s, h, e) && Isolated(s, h.index)
    ensures KeepsOthers(s, DevAfter(s, h, e), h.index) && Isolated(DevAfter(s, h, e), h.index)
  {
    EventValid(s, h, e);
    forall j: nat | j != h.index
      ensures KeepsZone(s, DevAfter(s, h, e), j)
    {
      if j < |s.zones| {
        SequentialIsContained(s, h, e);
        NonInterference(s, h, e, j);
      }
    }
    assert SameShape(DevAfter(s, h, e).zones[h.index], s.zones[h.index]);
  }

  /** Over any run through one handle every other zone stays as it was. */
  lemma {:induction false} RunKeepsOthers(s: DeviceState, h: HandleState, es: seq<HandleEvent>)
    requires ValidPair(s, h) && Run(s, h, es) && Isolated(s, h.index)
    ensures KeepsOthers(s, Exec(s, h, es).0, h.index) && Isolated(Exec(s, h, es).0, h.index)
  {
    hide DevAfter, HandleAfter, Enabled, ValidPair, KeepsOthers, Isolated;
    if es == [] {
      ValidPairState(s, h);
      KeepsOthersStart(s, h.index);
    } else {
      var before := es[..|es| - 1];
      var (t, g) := Exec(s, h, before);
      RunKeepsOthers(s, h, before);
      RunValid(s, h, before);
      EventKeepsOthers(t, g, es[|es| - 1]);
      KeepsOthersOn(s, t, DevAfter(t, g, es[|es| - 1]), h.index);
    }
  }

  lemma ValidPairState(s: DeviceState, h: HandleState)
    requires ValidPair(s, h)
    ensures ValidState(s)
  {
  }
}
