/** Where `write_all_sequential` can report success although the device does not hold the buffer: a call
    that stops inside a sector of a conventional zone. */
module TornWrites {
  import opened ZonedTypes
  import opened DeviceModel
  import opened HandleModel

  /** `buf` lies at the pointer the handle had. */
  ghost predicate Placed(h: HandleState, now: Pair, buf: seq<byte>) {
    && SECTOR_SIZE * h.writePointer + |buf| <= |now.0.data|
    && now.0.data[SECTOR_SIZE * h.writePointer..SECTOR_SIZE * h.writePointer + |buf|] == buf
  }

  /** For every buffer of this length, and wherever its calls stop, success means that it is placed. */
  ghost predicate AlwaysPlaced(s: DeviceState, h: HandleState, length: nat) {
    forall buf, cuts ::
      |buf| == length && WriteAll(s, h, buf, cuts, Ok(())) ==> Placed(h, Exec(s, h, Pieces(buf, cuts)), buf)
  }

  /** The zone is conventional and writable, and the length can be cut inside a sector. */
  ghost predicate Tears(s: DeviceState, h: HandleState, length: nat) {
    && TakesWrites(s, h) && s.zones[h.index].zoneType.Conventional?
    && length >= 2 && length % SECTOR_SIZE != 0
  }

  // ---------- the loop that tears ----------

  /** The handle still stands where it stood, on a writable conventional zone. */
  ghost predicate Standing(h: HandleState, now: Pair) {
    ValidPair(now.0, now.1) && now.1 == h && TakesWrites(now.0, h) && now.0.zones[h.index].zoneType.Conventional?
  }

  /** A call that takes less than a sector leaves the handle standing, its bytes at the pointer. */
  lemma CallInsideSector(h: HandleState, now: Pair, rest: seq<byte>, n: nat, after: Pair)
    requires Standing(h, now) && |rest| % SECTOR_SIZE != 0 && 0 < n <= |rest| && n < SECTOR_SIZE
    requires after == (DevAfter(now.0, now.1, Wrote(rest, n)), HandleAfter(now.1, Wrote(rest, n)))
    ensures Enabled(now.0, now.1, Wrote(rest, n))
    ensures Standing(h, after)
    ensures SECTOR_SIZE * h.writePointer < |after.0.data| && after.0.data[SECTOR_SIZE * h.writePointer] == rest[0]
  {
    assert ValidAt(now.0.zones, h.index);
    ConventionalEndInside(now.0.zones, h.index);
    EnabledCounts(now.0, h, rest, n);
    EventValid(now.0, h, Wrote(rest, n));
    WriteInside(now.0, h.writePointer, n);
    IndexUnique(now.0.zones, h.writePointer, h.index);
  }

  /** How much a torn call takes: never up to a sector boundary of what is left, except at the end. */
  function TornCount(left: nat): (n: nat)
    requires left % SECTOR_SIZE != 0
    ensures 0 < n <= left && n < SECTOR_SIZE && (n < left ==> (left - n) % SECTOR_SIZE != 0)
  {
    if left < SECTOR_SIZE then left else if left % SECTOR_SIZE == 1 then 2 else 1
  }

  /** How much the first call takes, so that some is left. */
  function FirstCount(length: nat): (n: nat)
    requires length >= 2 && length % SECTOR_SIZE != 0
    ensures 0 < n < length && n < SECTOR_SIZE && (length - n) % SECTOR_SIZE != 0
  {
    if length % SECTOR_SIZE == 1 then 2 else 1
  }

  /** A buffer whose first byte differs from all others. */
  function TornBuffer(length: nat): (buf: seq<byte>)
    ensures |buf| == length
    ensures forall k :: 0 <= k < length ==> buf[k] == if k == 0 then 0 else 1
  {
    seq(length, k => if k == 0 then 0 else 1)
  }

  /** Torn calls go on to the end of the buffer without moving the pointer; each overwrites the last. */
  lemma {:induction false} TornLoop(s: DeviceState, h: HandleState, buf: seq<byte>, cuts: seq<nat>, now: Pair)
    returns (all: seq<nat>)
    requires Writing(s, h, buf, cuts, now) && Standing(h, now)
    requires Last(cuts) > 0 && |Rest(buf, cuts)| % SECTOR_SIZE != 0 && forall k :: 0 < k < |buf| ==> buf[k] == 1
    ensures WriteAll(s, h, buf, all, Ok(()))
    ensures var t := Exec(s, h, Pieces(buf, all)).0;
            SECTOR_SIZE * h.writePointer < |t.data| && t.data[SECTOR_SIZE * h.writePointer] == 1
    decreases |Rest(buf, cuts)|
  {
    hide DevAfter, HandleAfter, Enabled, Run, Exec, Standing, TornCount, Pieces, Piece;
    var rest := Rest(buf, cuts);
    var n := TornCount(|rest|);
    var after := (DevAfter(now.0, now.1, Wrote(rest, n)), HandleAfter(now.1, Wrote(rest, n)));
    StandingIsValid(h, now);
    CallInsideSector(h, now, rest, n, after);
    all := cuts + [Last(cuts) + n];
    WritingMore(s, h, buf, cuts, now, rest, n, after, all);
    if n < |rest| {
      all := TornLoop(s, h, buf, all, after);
    }
  }

  lemma StandingIsValid(h: HandleState, now: Pair)
    requires Standing(h, now)
    ensures ValidState(now.0) && now.1 == h
  {
  }

  /** In every writable conventional zone, and for every length of at least 2 that is not whole sectors,
      there are a buffer and calls with which the loop overwrites its own bytes and still succeeds. */
  lemma WriteAllOverwritesItself(s: DeviceState, h: HandleState, length: nat) returns (buf: seq<byte>, cuts: seq<nat>)
    requires ValidPair(s, h) && Tears(s, h, length)
    ensures |buf| == length && WriteAll(s, h, buf, cuts, Ok(()))
    ensures !Placed(h, Exec(s, h, Pieces(buf, cuts)), buf)
  {
    hide DevAfter, HandleAfter, Enabled, Run, Exec, ValidState, TakesWrites, Standing, Placed;
    buf := TornBuffer(length);
    var first, now := FirstTornCall(s, h, buf);
    cuts := TornLoop(s, h, buf, first, now);
    NotPlaced(h, Exec(s, h, Pieces(buf, cuts)), buf);
  }

  lemma FirstTornCall(s: DeviceState, h: HandleState, buf: seq<byte>) returns (cuts: seq<nat>, now: Pair)
    requires ValidPair(s, h) && Tears(s, h, |buf|)
    ensures Writing(s, h, buf, cuts, now) && Standing(h, now)
    ensures Last(cuts) > 0 && |Rest(buf, cuts)| % SECTOR_SIZE != 0
  {
    hide DevAfter, HandleAfter, Enabled, Run, Exec, ValidState, Standing, FirstCount, Cuts, Pieces, Piece, Rest;
    var n := FirstCount(|buf|);
    var start := StartCuts();
    StandsAtFirst(s, h, |buf|);
    now := (DevAfter(s, h, Wrote(buf, n)), HandleAfter(h, Wrote(buf, n)));
    CutsStart(buf, start);
    CallInsideSector(h, (s, h), buf, n, now);
    cuts := start + [Last(start) + n];
    NothingWrittenYet(s, h, buf, start);
    WritingMore(s, h, buf, start, (s, h), buf, n, now, cuts);
  }

  lemma StandsAtFirst(s: DeviceState, h: HandleState, length: nat)
    requires ValidPair(s, h) && Tears(s, h, length)
    ensures Standing(h, (s, h)) && ValidState(s)
  {
  }

  lemma NothingWrittenYet(s: DeviceState, h: HandleState, buf: seq<byte>, start: seq<nat>)
    requires Cuts(buf, start) && Pieces(buf, start) == []
    ensures Writing(s, h, buf, start, (s, h))
  {
  }

  lemma NotPlaced(h: HandleState, now: Pair, buf: seq<byte>)
    requires buf != [] && SECTOR_SIZE * h.writePointer < |now.0.data|
    requires now.0.data[SECTOR_SIZE * h.writePointer] != buf[0]
    ensures !Placed(h, now, buf)
  {
    var from := SECTOR_SIZE * h.writePointer;
    assert from + |buf| <= |now.0.data| ==> now.0.data[from..from + |buf|][0] == now.0.data[from];
  }

  // ---------- the exact condition ----------

  lemma WholeBufferPlaced(s: DeviceState, h: HandleState, buf: seq<byte>, cuts: seq<nat>)
    requires ValidPair(s, h) && |buf| % SECTOR_SIZE == 0 && WriteAll(s, h, buf, cuts, Ok(()))
    ensures Placed(h, Exec(s, h, Pieces(buf, cuts)), buf)
  {
    WriteAllOutcome(s, h, buf, cuts, Ok(()));
    hide WriteAll, Exec, ValidPair, LogBytes;
    assert buf[..|buf|] == buf;
  }

  lemma OneBytePlaced(s: DeviceState, h: HandleState, buf: seq<byte>, cuts: seq<nat>)
    requires ValidPair(s, h) && |buf| == 1 && WriteAll(s, h, buf, cuts, Ok(()))
    ensures Placed(h, Exec(s, h, Pieces(buf, cuts)), buf)
  {
    assert CutAt(buf, cuts, |cuts| - 1) && CutAt(buf, cuts, |cuts| - 2);
    assert |cuts| == 2 && cuts[1] == 1;
    var last := Piece(buf, 0, 1);
    PiecesSnoc(buf, cuts);
    assert Pieces(buf, cuts[..1]) == [];
    RunSnoc(s, h, [], last);
    assert s.data[SECTOR_SIZE * h.writePointer..SECTOR_SIZE * h.writePointer + 0] == buf[..0];
    WroteBehind(s, h, SECTOR_SIZE * h.writePointer, buf, 0, 1);
    assert buf[..1] == buf;
  }

  lemma PlacedUnlessTorn(s: DeviceState, h: HandleState, buf: seq<byte>, cuts: seq<nat>)
    requires ValidPair(s, h) && !Tears(s, h, |buf|) && WriteAll(s, h, buf, cuts, Ok(()))
    ensures Placed(h, Exec(s, h, Pieces(buf, cuts)), buf)
  {
    hide DevAfter, Run, Exec, Enabled, ValidState;
    if |buf| % SECTOR_SIZE == 0 {
      WholeBufferPlaced(s, h, buf, cuts);
    } else if |buf| == 1 {
      OneBytePlaced(s, h, buf, cuts);
    } else {
      SuccessTakesWrites(s, h, buf, cuts);
      WriteAllInStep(s, h, buf, cuts);
    }
  }

  lemma SuccessTakesWrites(s: DeviceState, h: HandleState, buf: seq<byte>, cuts: seq<nat>)
    requires ValidPair(s, h) && buf != [] && WriteAll(s, h, buf, cuts, Ok(()))
    ensures TakesWrites(s, h)
    ensures !s.zones[h.index].zoneType.Conventional? ==> InStep(s, h)
  {
    assert CutAt(buf, cuts, |cuts| - 1);
    FirstEnabled(s, h, Pieces(buf, cuts));
    hide WriteAll, Run, Exec;
    EnabledCounts(s, h, Pieces(buf, cuts)[0].buf, Pieces(buf, cuts)[0].n);
  }

  /** Success of `write_all_sequential` is to be trusted for every buffer of a length exactly when the zone
      is not a writable conventional one, or the length is whole sectors or less than 2. */
  lemma WriteAllPlacesExactly(s: DeviceState, h: HandleState, length: nat)
    requires ValidPair(s, h)
    ensures AlwaysPlaced(s, h, length) <==> !Tears(s, h, length)
  {
    hide Run, Exec, Stops, Placed, ValidPair;
    if Tears(s, h, length) {
      var buf, cuts := WriteAllOverwritesItself(s, h, length);
    } else {
      forall buf, cuts | |buf| == length && WriteAll(s, h, buf, cuts, Ok(()))
        ensures Placed(h, Exec(s, h, Pieces(buf, cuts)), buf)
      {
        PlacedUnlessTorn(s, h, buf, cuts);
      }
    }
  }

  /** There is such a zone: a conventional one of two sectors. */
  lemma SomeZoneTears(length: nat) returns (s: DeviceState, h: HandleState)
    requires length >= 2 && length % SECTOR_SIZE != 0
    ensures ValidPair(s, h) && Tears(s, h, length)
  {
    var z := Zone(0, 2, 2, None, Conventional, NotWritePointer);
    s, h := DeviceState([z], Fill(SECTOR_SIZE * 2, 0), 0, false), HandleState(0, 0, 2, 2, 0);
    assert s.zones[0].Valid();
  }
}
