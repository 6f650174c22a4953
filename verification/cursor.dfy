/** `ZonedDeviceCursor`: reads, writes and seeks at a tracked byte position, against a plain byte array
    with a position. */
module Cursors {
  import opened ZonedTypes
  import opened DeviceModel
  import opened ZonedDevices

  datatype SeekFrom = Start(offset: u64) | Current(delta: i64) | End(back: i64)

  /** `Aborted`: an integer operation left its type. */
  datatype CursorError = InvalidInput | Unsupported | Device(error: ZonedError) | Aborted

  datatype CursorResult = Done(value: nat) | Failed(error: CursorError)

  /** A byte array with a position. */
  datatype Plain = Plain(data: seq<byte>, position: nat)

  /** One call on the array: its effect, and for a read what it returns. */
  datatype Event = Sought(to: nat) | ReadOf(n: nat) | WroteOf(bytes: seq<byte>) | Refused

  predicate Possible(p: Plain, e: Event) {
    match e
    case Sought(to) => to % SECTOR_SIZE == 0
    case ReadOf(n) => p.position % SECTOR_SIZE == 0 && (n == 0 || p.position + n <= |p.data|)
    case WroteOf(bytes) => p.position % SECTOR_SIZE == 0 && p.position + |bytes| <= |p.data|
    case Refused => true
  }

  function After(p: Plain, e: Event): Plain {
    match e
    case Sought(to) => p.(position := to)
    case ReadOf(n) => p.(position := p.position + n)
    case WroteOf(bytes) =>
      if p.position + |bytes| <= |p.data| then Plain(Splice(p.data, p.position, bytes), p.position + |bytes|) else p
    case Refused => p
  }

  /** What a read returns. */
  function Output(p: Plain, e: Event): seq<byte> {
    if e.ReadOf? && p.position + e.n <= |p.data| then p.data[p.position..p.position + e.n] else []
  }

  /** Where a seek from `position` leads, if it succeeds: exact integer arithmetic, inside u64, and
      only to whole sectors. The least i64 cannot be negated and leads nowhere. */
  function Target(position: nat, pos: SeekFrom): Option<nat> {
    var to := match pos
      case Start(offset) => offset
      case Current(delta) => if delta == I64_MIN then -1 else position + delta
      case End(_) => -1;
    if 0 <= to < U64_END && to % SECTOR_SIZE == 0 then Some(to) else None
  }

  class ZonedDeviceCursor {
    const device: ZonedDevice
    var position: u64

    constructor (device: ZonedDevice)
      ensures this.device == device && position == 0
    {
      this.device, position := device, 0;
    }

    /** A cursor at the sector's first byte, or `None` where that is past 64 bits and the call aborts. */
    static method AtSector(device: ZonedDevice, sector: u64) returns (r: Option<ZonedDeviceCursor>)
      ensures r.Some? <==> SECTOR_SIZE * sector < U64_END
      ensures r.Some? ==> fresh(r.value) && r.value.device == device && r.value.position == SECTOR_SIZE * sector
    {
      if sector * SECTOR_SIZE >= U64_END {
        return None;
      }
      var cursor := new ZonedDeviceCursor(device);
      cursor.position := sector * SECTOR_SIZE;
      return Some(cursor);
    }

    ghost function Abs(): Plain
      reads this, device
    {
      Plain(device.state.data, position)
    }

    /** The call was event `e` of the plain array. */
    ghost predicate Did(before: Plain, e: Event)
      reads this, device
    {
      Possible(before, e) && Abs() == After(before, e)
    }

    method Read(buf: array<byte>) returns (r: CursorResult)
      requires device.Valid()
      modifies this`position, buf
      ensures r.Done? ==>
                && r.value <= buf.Length
                && Did(old(Abs()), ReadOf(r.value))
                && buf[..r.value] == Output(old(Abs()), ReadOf(r.value)) && buf[r.value..] == old(buf[r.value..])
                && (r.value == 0 <==> buf.Length == 0 || old(position) >= |device.state.data|)
                && position == old(position) + r.value
                && (r.value > 0 ==> old(position) + r.value <= |device.state.data|
                                    && buf[..r.value] == device.state.data[old(position)..position])
                && (device.eager && r.value > 0 ==> r.value == buf.Length || position == |device.state.data|)
      ensures r.Failed? ==> Did(old(Abs()), Refused) && buf[..] == old(buf[..])
      ensures r == Failed(InvalidInput) <==> old(position) % SECTOR_SIZE != 0
      ensures r.Failed? && device.reliable ==> r == Failed(InvalidInput)
    {
      if position % SECTOR_SIZE != 0 {
        return Failed(InvalidInput);
      }
      var n := device.ReadAt(position / SECTOR_SIZE, buf, 0);
      if n.Err? {
        return Failed(Device(n.error));
      }
      assert buf[0..n.value] == buf[..n.value];
      position := position + n.value;
      return Done(n.value);
    }

    method Write(buf: seq<byte>) returns (r: CursorResult)
      requires device.Valid()
      modifies this`position, device
      ensures device.Valid()
      ensures r.Done? ==>
                && r.value <= |buf| && Did(old(Abs()), WroteOf(buf[..r.value]))
                && position == old(position) + r.value <= |device.state.data| == |old(device.state).data|
                && device.state.data[old(position)..position] == buf[..r.value]
                && (device.progressive && |buf| > 0 ==> r.value > 0)
      ensures r.Failed? ==> Did(old(Abs()), Refused) && device.state == old(device.state)
      ensures old(position) % SECTOR_SIZE != 0 ==> r == Failed(InvalidInput)
      ensures r == Failed(InvalidInput) ==> old(position) % SECTOR_SIZE != 0
      ensures old(position) % SECTOR_SIZE == 0 && device.reliable && device.writable ==>
                WriteAllowed(old(device.state), old(position) / SECTOR_SIZE, |buf|, 0) ==> r.Done?
    {
      if position % SECTOR_SIZE != 0 {
        return Failed(InvalidInput);
      }
      var n := device.WriteAt(position / SECTOR_SIZE, buf);
      if n.Err? {
        return Failed(Device(n.error));
      }
      WriteInside(old(device.state), position / SECTOR_SIZE, n.value);
      position := position + n.value;
      return Done(n.value);
    }

    /** Succeeds exactly when the target is a whole sector inside u64, and goes there; otherwise the
        position stays. */
    method Seek(pos: SeekFrom) returns (r: CursorResult)
      modifies this`position
      ensures var to := Target(old(position), pos);
              if to.Some? then r == Done(to.value) && Did(old(Abs()), Sought(to.value))
              else r.Failed? && Did(old(Abs()), Refused)
      ensures r.Done? ==> r.value == position
      ensures r.Done? && pos.Start? ==> position == pos.offset
      ensures r.Done? && pos.Current? ==> position == old(position) + pos.delta
      ensures pos.Start? ==> (r.Done? <==> pos.offset % SECTOR_SIZE == 0)
      ensures pos.Current? ==>
                var to := old(position) + pos.delta;
                r.Done? <==> pos.delta != I64_MIN && 0 <= to < U64_END && to % SECTOR_SIZE == 0
      ensures r.Failed? ==> position == old(position)
      ensures pos.End? ==> r == Failed(Unsupported)
      ensures r == Failed(Aborted) <==> pos.Current? && pos.delta == I64_MIN
    {
      var newPos: u64 := 0;
      match pos {
        case Start(offset) =>
          newPos := offset;
        case Current(offset) =>
          if offset >= 0 {
            if position + offset as int >= U64_END {
              return Failed(InvalidInput);
            }
            newPos := position + offset as int;
          } else if offset == I64_MIN {
            return Failed(Aborted);
          } else {
            var abs: u64 := -(offset as int);
            if position < abs {
              return Failed(InvalidInput);
            }
            newPos := position - abs;
          }
        case End(_) =>
          return Failed(Unsupported);
      }
      if newPos % SECTOR_SIZE != 0 {
        return Failed(InvalidInput);
      }
      position := newPos;
      return Done(position);
    }
  }

  /** Seeking by some distance and then back by it leads back, and seeking twice leads where seeking by the
      sum does. */
  lemma SeekBack(position: u64, delta: i64, more: i64)
    requires position % SECTOR_SIZE == 0 && delta > I64_MIN
    requires Target(position, Current(delta)).Some?
    ensures Target(position, Current(delta)).value == position + delta
    ensures Target(position + delta, Current(-delta)) == Some(position)
    ensures I64_MIN < delta + more < -I64_MIN && more > I64_MIN ==>
              Target(position + delta, Current(more)) == Target(position, Current(delta + more))
  {
  }

  // ---------- runs ----------

  function AfterAll(p: Plain, es: seq<Event>): Plain {
    if es == [] then p else After(AfterAll(p, es[..|es| - 1]), es[|es| - 1])
  }

  predicate AllPossible(p: Plain, es: seq<Event>) {
    es == [] || (AllPossible(p, es[..|es| - 1]) && Possible(AfterAll(p, es[..|es| - 1]), es[|es| - 1]))
  }

  /** Everything the reads of a run return, in order. */
  function Outputs(p: Plain, es: seq<Event>): seq<byte> {
    if es == [] then [] else Outputs(p, es[..|es| - 1]) + Output(AfterAll(p, es[..|es| - 1]), es[|es| - 1])
  }

  /** Everything the writes of a run put, in order. */
  function Inputs(es: seq<Event>): seq<byte> {
    if es == [] then [] else
      Inputs(es[..|es| - 1]) + if es[|es| - 1].WroteOf? then es[|es| - 1].bytes else []
  }

  predicate OnlyReads(es: seq<Event>) {
    forall k :: 0 <= k < |es| ==> es[k].ReadOf? || es[k].Refused?
  }

  predicate OnlyWrites(es: seq<Event>) {
    forall k :: 0 <= k < |es| ==> es[k].WroteOf? || es[k].Refused?
  }

  /** A run of reads, short or failing, returns the bytes between its first and last position. */
  lemma {:induction false} ReadsAreConsecutive(p: Plain, es: seq<Event>)
    requires OnlyReads(es) && AllPossible(p, es)
    ensures AfterAll(p, es).data == p.data && p.position <= AfterAll(p, es).position
    ensures p.position <= |p.data| ==>
              AfterAll(p, es).position <= |p.data| && Outputs(p, es) == p.data[p.position..AfterAll(p, es).position]
  {
    if es == [] {
    } else {
      var before, e := es[..|es| - 1], es[|es| - 1];
      ReadsAreConsecutive(p, before);
      ReadGoesOn(p.data, p.position, AfterAll(p, before), e);
    }
  }

  lemma ReadGoesOn(data: seq<byte>, from: nat, q: Plain, e: Event)
    requires (e.ReadOf? || e.Refused?) && q.data == data && Possible(q, e) && from <= q.position
    ensures After(q, e).data == data && from <= After(q, e).position
    ensures q.position <= |data| ==>
              After(q, e).position <= |data| && data[from..q.position] + Output(q, e) == data[from..After(q, e).position]
  {
  }

  /** A run of writes, short or failing, is one write of everything accepted. */
  lemma {:induction false} WritesAreConsecutive(p: Plain, es: seq<Event>)
    requires OnlyWrites(es) && AllPossible(p, es) && p.position <= |p.data|
    ensures p.position + |Inputs(es)| <= |p.data|
    ensures AfterAll(p, es) == Plain(Splice(p.data, p.position, Inputs(es)), p.position + |Inputs(es)|)
  {
    if es != [] {
      var before, e := es[..|es| - 1], es[|es| - 1];
      WritesAreConsecutive(p, before);
      if e.WroteOf? {
        SpliceAppend(p.data, p.position, Inputs(before), e.bytes);
      }
    } else {
      assert Splice(p.data, p.position, []) == p.data;
    }
  }

  /** Seeking back over a run of writes and reading returns what was written, however the writes and
      the reads were cut short. */
  lemma WriteSeekRead(p: Plain, ws: seq<Event>, rs: seq<Event>)
    requires p.position <= |p.data| && OnlyWrites(ws) && AllPossible(p, ws) && OnlyReads(rs)
    requires var q := After(AfterAll(p, ws), Sought(p.position));
             AllPossible(q, rs) && AfterAll(q, rs).position == AfterAll(p, ws).position
    ensures Outputs(After(AfterAll(p, ws), Sought(p.position)), rs) == Inputs(ws)
  {
    var q := After(AfterAll(p, ws), Sought(p.position));
    WritesAreConsecutive(p, ws);
    ReadsAreConsecutive(q, rs);
    assert q.data[p.position..p.position + |Inputs(ws)|] == Inputs(ws);
  }
}
