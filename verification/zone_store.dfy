/** The zone file store: one file per zone, written through a handle and read back from the device. */
module ZoneStores {
  import opened ZonedTypes
  import opened DeviceModel
  import opened ZonedDevices
  import opened HandleModel
  import opened ZoneIsolation
  import opened ZoneHandles
  import opened StoredFiles
  import opened BufferedWriters

  const BUFFER_CAPACITY: nat := 131072

  /** How a writer ends: `SendFailed` is an I/O error wrapped around what the buffered writer reported. */
  datatype WriteOutcome = FileWritten | TooLarge | WriteFailed(error: ZonedError) | SendFailed(cause: WriteError)

  datatype ReadOutcome = Content(data: seq<byte>) | NotAFile | ReadFailed(error: ZonedError)

  // ---------- writing ----------

  /** Zone `i` exists, and the file and its header exceed its capacity. */
  predicate Exceeds(s: DeviceState, i: nat, data: seq<byte>) {
    i < |s.zones| && HEADER_SIZE + |data| > SECTOR_SIZE * s.zones[i].capacity
  }

  /** Zone `i` exists, and the padded payload exceeds its capacity. */
  predicate ExceedsPadded(s: DeviceState, i: nat, data: seq<byte>) {
    i < |s.zones| && |Payload(data)| > SECTOR_SIZE * s.zones[i].capacity
  }

  /** Zone `i` exists, and the padded payload fits it, unless the zone is conventional. */
  predicate Fits(s: DeviceState, i: nat, data: seq<byte>) {
    i < |s.zones| && (s.zones[i].zoneType.Conventional? || !ExceedsPadded(s, i, data))
  }

  /** A reset of zone `i` succeeds, unless the device fails: the zone takes commands, or is the only one. */
  predicate Resettable(s: DeviceState, i: nat) {
    i < |s.zones| && (|s.zones| == 1 || s.zones[i].HasWritePointer())
  }

  /** Zone `i` can be reset and written, and the padded payload fits it. */
  predicate Storable(s: DeviceState, i: nat, data: seq<byte>) {
    && Resettable(s, i) && !ExceedsPadded(s, i, data)
    && (s.zones[i].HasWritePointer() || s.zones[i].condition.NotWritePointer?)
  }

  /** The handle is at the start of its zone, whose writes do not reach into others, a zone with a pointer is
      empty and in step with the handle, and the file passed the size check. */
  ghost predicate Ready(x: Pair, zoneIndex: nat, data: seq<byte>) {
    && ValidPair(x.0, x.1) && x.1.index == zoneIndex && x.1.writePointer == x.1.start
    && !Exceeds(x.0, zoneIndex, data) && Isolated(x.0, zoneIndex)
    && (x.0.zones[zoneIndex].HasWritePointer() ==> x.0.zones[zoneIndex].condition.Empty? && InStep(x.0, x.1))
  }

  lemma AppendedIsStored(x: Pair, zoneIndex: nat, data: seq<byte>, y: Pair)
    requires Ready(x, zoneIndex, data) && Appended(x.0, x.1, y, Payload(data))
    ensures Stored(y.0, zoneIndex, data)
  {
  }

  /** Opens the zone, checks the size and resets the zone: the part both writers begin with. */
  method Prepare(device: ZonedDevice, zoneIndex: u32, data: seq<byte>)
    returns (r: WriteOutcome, handle: Option<ZoneHandle>)
    requires device.Valid() && HEADER_SIZE + |data| < U64_END
    modifies device
    ensures device.Valid() && KeepsOthers(old(device.state), device.state, zoneIndex) && !r.SendFailed?
    ensures r.FileWritten? ==>
              && handle.Some? && fresh(handle.value) && handle.value.Valid() && handle.value.device == device
              && Ready(handle.value.Now(), zoneIndex, data)
    ensures r.TooLarge? <==> Exceeds(old(device.state), zoneIndex, data) && !r.WriteFailed?
    ensures !r.FileWritten? ==> device.state == old(device.state)
    ensures r.WriteFailed? ==> r.error.FromDevice() || NoSuchZone(old(device.state), zoneIndex, r.error)
    ensures device.reliable && Resettable(old(device.state), zoneIndex) ==> !r.WriteFailed?
    ensures r.FileWritten? && Storable(old(device.state), zoneIndex, data) ==>
              HasRoom(handle.value.Now().0, handle.value.Now().1, Payload(data))
  {
    handle := None;
    KeepsOthersStart(device.state, zoneIndex);
    var made := ZoneHandle.New(device, zoneIndex, None);
    if made.Err? {
      return WriteFailed(made.error), None;
    }
    var h := made.value;
    ZoneInside(device.state, zoneIndex);
    assert ValidAt(device.state.zones, zoneIndex);
    var zoneCap: u64 := h.capacity * SECTOR_SIZE;
    var total: u64 := HEADER_SIZE + |data|;
    if total > zoneCap {
      return TooLarge, None;
    }
    ghost var x := h.Now();
    var reset := h.Reset();
    if reset.Err? {
      return WriteFailed(reset.error), None;
    }
    AfterReset(x, zoneIndex, data, h.Now());
    return FileWritten, Some(h);
  }

  lemma AfterReset(x: Pair, zoneIndex: nat, data: seq<byte>, y: Pair)
    requires ValidPair(x.0, x.1) && x.1.index == zoneIndex && Isolated(x.0, zoneIndex) && !Exceeds(x.0, zoneIndex, data)
    requires y == (DevAfter(x.0, x.1, Commanded(ZoneCommand.Reset)), HandleAfter(x.1, Commanded(ZoneCommand.Reset)))
    ensures Ready(y, zoneIndex, data) && KeepsOthers(x.0, y.0, zoneIndex)
    ensures Storable(x.0, zoneIndex, data) ==> HasRoom(y.0, y.1, Payload(data))
  {
    ResetZone(x, y);
    EventValid(x.0, x.1, Commanded(ZoneCommand.Reset));
    EventKeepsOthers(x.0, x.1, Commanded(ZoneCommand.Reset));
    hide DevAfter, ValidState;
    assert SameShape(y.0.zones[zoneIndex], x.0.zones[zoneIndex]);
  }

  /** What the reset makes of the zone: one with a pointer is empty and in step, any other as it was. */
  lemma ResetZone(x: Pair, y: Pair)
    requires ValidPair(x.0, x.1)
    requires y == (DevAfter(x.0, x.1, Commanded(ZoneCommand.Reset)), HandleAfter(x.1, Commanded(ZoneCommand.Reset)))
    ensures ValidPair(y.0, y.1)
    ensures if x.0.zones[x.1.index].HasWritePointer() then y.0.zones[x.1.index].condition.Empty? && InStep(y.0, y.1)
            else y.0.zones[x.1.index] == x.0.zones[x.1.index]
    ensures x.0.zones[x.1.index].HasWritePointer() || x.0.zones[x.1.index].condition.NotWritePointer? ==>
              TakesWrites(y.0, y.1)
  {
    EventValid(x.0, x.1, Commanded(ZoneCommand.Reset));
    ZoneInside(x.0, x.1.index);
    assert ValidAt(x.0.zones, x.1.index) && ValidAt(y.0.zones, x.1.index);
  }

  /** In a sequential zone only a payload that fits it, padding included, can be sent. */
  lemma PayloadSentFits(x: Pair, zoneIndex: nat, data: seq<byte>, y: Pair)
    requires Ready(x, zoneIndex, data) && Sent(x, Payload(data), y)
    ensures Fits(x.0, zoneIndex, data)
  {
    if !x.0.zones[zoneIndex].zoneType.Conventional? {
      SentFits(x, Payload(data), y);
    }
  }

  /** The same zone, before the reset. */
  lemma SameLimits(s: DeviceState, t: DeviceState, zoneIndex: nat, data: seq<byte>)
    requires SameLayout(t.zones, s.zones)
    ensures Fits(t, zoneIndex, data) <==> Fits(s, zoneIndex, data)
    ensures ExceedsPadded(t, zoneIndex, data) <==> ExceedsPadded(s, zoneIndex, data)
    ensures zoneIndex < |s.zones| ==> t.zones[zoneIndex].zoneType == s.zones[zoneIndex].zoneType
  {
    if zoneIndex < |s.zones| {
      assert SameShape(t.zones[zoneIndex], s.zones[zoneIndex]);
    }
  }

  /** The payload, extended and resized in place. */
  method BuildPayload(data: seq<byte>) returns (payload: seq<byte>)
    ensures payload == Payload(data)
  {
    payload := Header(|data|);
    payload := payload + data;
    var remainder := |payload| % WRITE_ALIGN;
    PaddingFromRemainder(|payload|);
    if remainder != 0 {
      payload := payload + Fill(WRITE_ALIGN - remainder, 0);
    } else {
      assert payload == payload + Padding(|payload|);
    }
  }

  /** The loop over the payload stores the file, or fails; at the capacity it fails only if the padded
      payload exceeds it. */
  lemma PayloadWritten(x: Pair, zoneIndex: nat, data: seq<byte>, cuts: seq<nat>, r: Result<()>, y: Pair)
    requires Ready(x, zoneIndex, data) && LoopIn(x, Payload(data), y, cuts, r)
    ensures r.Ok? ==> Stored(y.0, zoneIndex, data) && Fits(x.0, zoneIndex, data)
    ensures r.Err? && y.1.writePointer >= y.1.CapacityEnd() ==> ExceedsPadded(x.0, zoneIndex, data)
  {
    hide Run, Exec, Stored, ValidState, Exceeds, Isolated, LogBytes, InStep;
    WriteAllOutcome(x.0, x.1, Payload(data), cuts, r);
    if r.Ok? {
      assert Payload(data)[..Last(cuts)] == Payload(data);
      AppendedIsStored(x, zoneIndex, data, y);
      assert LoopIn(x, Payload(data), y, cuts, Ok(()));
      PayloadSentFits(x, zoneIndex, data, y);
    }
  }

  lemma PayloadKeepsOthers(x: Pair, zoneIndex: nat, data: seq<byte>, cuts: seq<nat>, r: Result<()>, y: Pair)
    requires Ready(x, zoneIndex, data) && LoopIn(x, Payload(data), y, cuts, r)
    ensures KeepsOthers(x.0, y.0, zoneIndex)
  {
    hide Exec, KeepsOthers, ValidState;
    RunKeepsOthers(x.0, x.1, Pieces(Payload(data), cuts));
  }

  /** The asynchronous example's writer: the whole payload through one `write_all_sequential`. */
  method WriteFileAsync(device: ZonedDevice, zoneIndex: u32, data: seq<byte>) returns (r: WriteOutcome)
    requires device.Valid() && HEADER_SIZE + |data| < U64_END
    modifies device
    ensures device.Valid() && KeepsOthers(old(device.state), device.state, zoneIndex) && !r.SendFailed?
    ensures r.FileWritten? ==> Stored(device.state, zoneIndex, data) && Fits(old(device.state), zoneIndex, data)
    ensures r.TooLarge? ==> device.state == old(device.state)
    ensures r.TooLarge? <==> Exceeds(old(device.state), zoneIndex, data) && !r.WriteFailed?
    ensures r.WriteFailed? && device.progressive ==>
              || r.error.FromDevice()
              || NoSuchZone(old(device.state), zoneIndex, r.error)
              || ExceedsPadded(old(device.state), zoneIndex, data)
    ensures device.Dependable() && Storable(old(device.state), zoneIndex, data) ==> r.FileWritten?
  {
    ghost var before := device.state;
    var handle;
    r, handle := Prepare(device, zoneIndex, data);
    if r.FileWritten? {
      hide Ready, Stored, Payload, ValidPair, WriteAll, Exec, Fits, ExceedsPadded, Exceeds;
      hide Storable, HasRoom, TakesWrites;
      ghost var x := handle.value.Now();
      SameLimits(before, x.0, zoneIndex, data);
      var payload := BuildPayload(data);
      var written;
      ghost var cuts;
      written, cuts := handle.value.WriteAllSequential(payload);
      PayloadWritten(x, zoneIndex, data, cuts, written, handle.value.Now());
      PayloadKeepsOthers(x, zoneIndex, data, cuts, written, handle.value.Now());
      KeepsOthersOn(before, x.0, device.state, zoneIndex);
      if written.Err? {
        r := WriteFailed(written.error);
      }
    }
  }

  /** The synchronous example's writer: header, content and padding through a buffered writer. A file
      that fits the buffer together with its header is stored, if device and capacity allow; a longer one
      never is in a sequential zone, since the buffer then sends the header on its own. */
  method WriteFileSync(device: ZonedDevice, zoneIndex: u32, data: seq<byte>) returns (r: WriteOutcome)
    requires device.Valid() && HEADER_SIZE + |data| < U64_END
    modifies device
    ensures device.Valid() && KeepsOthers(old(device.state), device.state, zoneIndex)
    ensures r.FileWritten? && HEADER_SIZE + |data| <= BUFFER_CAPACITY ==>
              Stored(device.state, zoneIndex, data) && Fits(old(device.state), zoneIndex, data)
    ensures r.FileWritten? ==>
              && zoneIndex < |old(device.state).zones|
              && (old(device.state).zones[zoneIndex].zoneType.Conventional? || HEADER_SIZE + |data| <= BUFFER_CAPACITY)
    ensures r.TooLarge? ==> device.state == old(device.state)
    ensures r.TooLarge? <==> Exceeds(old(device.state), zoneIndex, data) && !r.WriteFailed?
    ensures r.WriteFailed? ==> r.error.FromDevice() || NoSuchZone(old(device.state), zoneIndex, r.error)
    ensures r.SendFailed? && device.progressive && HEADER_SIZE + |data| <= BUFFER_CAPACITY ==>
              r.cause.Other? && (r.cause.cause.FromDevice() || ExceedsPadded(old(device.state), zoneIndex, data))
    ensures device.Dependable() && Storable(old(device.state), zoneIndex, data) ==>
              HEADER_SIZE + |data| <= BUFFER_CAPACITY ==> r.FileWritten?
  {
    ghost var before := device.state;
    var handle;
    r, handle := Prepare(device, zoneIndex, data);
    if r.FileWritten? {
      hide Ready, Stored, Payload, ValidPair, Fits, ExceedsPadded, Exceeds, Sent, BrokeOff, KeepsOthers;
      hide Storable, HasRoom, TakesWrites, Resettable;
      ghost var x := handle.value.Now();
      SameLimits(before, x.0, zoneIndex, data);
      ReadyIsIsolated(x, zoneIndex, data);
      var writer := new BufWriter(BUFFER_CAPACITY, handle.value);
      var sent := WriteBuffered(writer, data);
      KeepsOthersOn(before, x.0, device.state, zoneIndex);
      if HEADER_SIZE + |data| <= BUFFER_CAPACITY {
        BufferedOutcome(x, zoneIndex, data, sent, handle.value.Now());
      }
      if sent.Broken? {
        // The writer is dropped and tries once more to send what it holds.
        ghost var mid := device.state;
        var ignored := writer.FlushBuf();
        KeepsOthersOn(before, mid, device.state, zoneIndex);
        r := SendFailed(sent.error);
      }
    }
  }

  lemma ReadyIsIsolated(x: Pair, zoneIndex: nat, data: seq<byte>)
    requires Ready(x, zoneIndex, data)
    ensures ValidPair(x.0, x.1) && x.1.index == zoneIndex && Isolated(x.0, zoneIndex)
  {
  }

  /** What the buffered writer makes of a file that fits its buffer is what the loop over the payload
      makes of it. */
  lemma BufferedOutcome(x: Pair, zoneIndex: nat, data: seq<byte>, sent: WriteResult, y: Pair)
    requires Ready(x, zoneIndex, data)
    requires sent.Complete? ==> Sent(x, Payload(data), y)
    requires sent.Broken? ==> exists rest :: BrokeOff(x, Payload(data), y, sent.error, rest)
    ensures sent.Complete? ==> Stored(y.0, zoneIndex, data) && Fits(x.0, zoneIndex, data)
    ensures sent.Broken? && y.1.writePointer >= y.1.CapacityEnd() ==> ExceedsPadded(x.0, zoneIndex, data)
  {
    hide Ready, WriteAll, Exec, Stored, Payload, Fits, ExceedsPadded, KeepsOthers;
    var r := if sent.Complete? then Ok(()) else Err(sent.error.Cause(x.1.index));
    var cuts :| LoopIn(x, Payload(data), y, cuts, r);
    PayloadWritten(x, zoneIndex, data, cuts, r, y);
  }

  /** The writer holds bytes that its handle, out of step, can never send. */
  ghost predicate Stuck(held: seq<byte>, x: Pair) {
    held != [] && OutOfStep(x)
  }

  /** In a sequential zone, content that does not fit the buffer behind its header gets stuck. */
  lemma LateContentIsStuck(x: Pair, mid: Pair, data: seq<byte>, y: Pair, held: seq<byte>)
    requires ValidPair(x.0, x.1) && !x.0.zones[x.1.index].zoneType.Conventional?
    requires HEADER_SIZE + |data| > BUFFER_CAPACITY && Sent(x, Header(|data|), mid)
    requires if |data| < BUFFER_CAPACITY then held == data && y == mid else Sent(mid, data, y)
    ensures Stuck(held, y)
  {
    hide Sent, OutOfStep;
    SentPartLeavesOutOfStep(x, Header(|data|), mid);
    if |data| >= BUFFER_CAPACITY {
      OutOfStepSendsNothing(mid, data, y);
    }
  }

  /** Header and content. */
  method WriteContent(writer: BufWriter, data: seq<byte>) returns (r: WriteResult)
    requires writer.Valid() && writer.capacity == BUFFER_CAPACITY && writer.buf == []
    modifies writer, writer.inner`writePointer, writer.inner`log, writer.inner.device
    ensures writer.Valid() && writer.Alone(old(writer.Now()))
    ensures HEADER_SIZE + |data| <= BUFFER_CAPACITY ==>
              r.Complete? && writer.buf == Header(|data|) + data && writer.Now() == old(writer.Now())
    ensures r.Complete? && HEADER_SIZE + |data| > BUFFER_CAPACITY ==>
              || old(writer.inner.device.state).zones[writer.inner.zoneIndex].zoneType.Conventional?
              || Stuck(writer.buf, writer.Now())
    ensures r.Broken? ==> ByDeviceOrFull(writer.inner, r.error)
  {
    hide Sent, ValidState, KeepsOthers, Isolated;
    ghost var x := writer.Now();
    ghost var mid;
    r, mid := writer.WriteAll(Header(|data|));
    assert r.Complete? && writer.buf == Header(|data|);
    r, mid := writer.WriteAll(data);
    if r.Complete? && HEADER_SIZE + |data| > BUFFER_CAPACITY && !x.0.zones[x.1.index].zoneType.Conventional? {
      LateContentIsStuck(x, mid, data, writer.Now(), writer.buf);
    }
  }

  /** Zeroes up to the write alignment. */
  method WritePadding(writer: BufWriter, written: nat) returns (r: WriteResult)
    requires writer.Valid() && writer.capacity == BUFFER_CAPACITY
    modifies writer, writer.inner`writePointer, writer.inner`log, writer.inner.device
    ensures writer.Valid() && writer.Alone(old(writer.Now()))
    ensures |old(writer.buf)| == written ==>
              r.Complete? && writer.buf == old(writer.buf) + Padding(written) && writer.Now() == old(writer.Now())
    ensures Stuck(old(writer.buf), old(writer.Now())) && r.Complete? ==> Stuck(writer.buf, writer.Now())
    ensures r.Broken? ==> ByDeviceOrFull(writer.inner, r.error)
  {
    hide Sent, OutOfStep, KeepsOthers, Isolated, ValidState;
    ghost var held, x := writer.buf, writer.Now();
    KeepsOthersStart(x.0, writer.inner.zoneIndex);
    r := Complete;
    var remainder := written % WRITE_ALIGN;
    PaddingFromRemainder(written);
    if remainder != 0 {
      ghost var mid;
      r, mid := writer.WriteAll(Fill(WRITE_ALIGN - remainder, 0));
      assert Fill(WRITE_ALIGN - remainder, 0) == Padding(written);
      if Stuck(held, x) {
        OutOfStepSendsNothing(x, held, mid);
      }
    } else {
      assert held == held + Padding(written);
    }
  }

  /** The writer's calls. */
  method WriteBuffered(writer: BufWriter, data: seq<byte>) returns (r: WriteResult)
    requires writer.Valid() && writer.capacity == BUFFER_CAPACITY && writer.buf == []
    modifies writer, writer.inner`writePointer, writer.inner`log, writer.inner.device
    ensures writer.Valid() && writer.Alone(old(writer.Now()))
    ensures HEADER_SIZE + |data| <= BUFFER_CAPACITY ==>
              if r.Complete? then Sent(old(writer.Now()), Payload(data), writer.Now())
              else BrokeOff(old(writer.Now()), Payload(data), writer.Now(), r.error, writer.buf)
    ensures r.Broken? ==> ByDeviceOrFull(writer.inner, r.error)
    ensures HEADER_SIZE + |data| <= BUFFER_CAPACITY && writer.inner.device.Dependable() ==>
              HasRoom(old(writer.Now()).0, old(writer.Now()).1, Payload(data)) ==> r.Complete?
    ensures r.Complete? && HEADER_SIZE + |data| > BUFFER_CAPACITY ==>
              old(writer.inner.device.state).zones[writer.inner.zoneIndex].zoneType.Conventional?
  {
    hide Sent, BrokeOff, OutOfStep, ValidState, KeepsOthers, Isolated, HasRoom, TakesWrites;
    ghost var x, i := writer.Now(), writer.inner.zoneIndex;
    r := WriteContent(writer, data);
    if r.Broken? {
      return;
    }
    ghost var y := writer.Now();
    r := WritePadding(writer, HEADER_SIZE + |data|);
    ghost var held, z := writer.buf, writer.Now();
    if Isolated(x.0, i) {
      KeepsOthersOn(x.0, y.0, z.0, i);
    }
    if r.Broken? {
      return;
    }
    r := writer.FlushBuf();
    if Isolated(x.0, i) {
      KeepsOthersOn(x.0, z.0, writer.Now().0, i);
    }
    if Stuck(held, z) {
      OutOfStepSendsNothing(z, held, writer.Now());
    }
  }

  // ---------- reading ----------

  /** The first `n` bytes of the reader's buffer are the device's from byte `off`, the others still 0. */
  ghost predicate Filled(buf: seq<byte>, data: seq<byte>, off: nat, n: nat) {
    && n <= |buf|
    && (n > 0 ==> off + n <= |data|)
    && (forall k :: 0 <= k < n ==> buf[k] == data[off + k])
    && (forall k :: n <= k < |buf| ==> buf[k] == 0)
  }

  lemma FilledMore(before: seq<byte>, buf: seq<byte>, data: seq<byte>, off: nat, n: nat, m: nat)
    requires Filled(before, data, off, n) && |buf| == |before| && n + m <= |buf|
    requires m > 0 ==> off + n + m <= |data| && buf[n..n + m] == data[off + n..off + n + m]
    requires buf[..n] == before[..n] && buf[n + m..] == before[n + m..]
    ensures Filled(buf, data, off, n + m)
  {
    forall k | 0 <= k < n + m
      ensures buf[k] == data[off + k]
    {
      if k < n {
        assert buf[k] == buf[..n][k] == before[..n][k];
      } else {
        assert buf[k] == buf[n..n + m][k - n] == data[off + n..off + n + m][k - n];
      }
    }
    forall k | n + m <= k < |buf|
      ensures buf[k] == 0
    {
      assert buf[k] == buf[n + m..][k - (n + m)] == before[n + m..][k - (n + m)];
    }
  }

  /** The first `m` bytes are what a reader of `BytesAt` gets, once the buffer holds that many bytes or
      the device has ended. */
  lemma FilledIsBytesAt(buf: seq<byte>, data: seq<byte>, off: nat, n: nat, m: nat)
    requires Filled(buf, data, off, n) && m <= |buf| && (m <= n || off + n >= |data|)
    ensures buf[..m] == BytesAt(data, off, m)
  {
  }

  lemma AllIsBytesAt(buf: seq<byte>, data: seq<byte>, off: nat, n: nat)
    requires Filled(buf, data, off, n) && (n == |buf| || off + n >= |data|)
    ensures buf == BytesAt(data, off, |buf|)
  {
    FilledIsBytesAt(buf, data, off, n, |buf|);
    assert buf[..|buf|] == buf;
  }

  /** One read, at the offset the code computes for it. */
  method ReadNext(device: ZonedDevice, zoneStart: u64, buf: array<byte>, readSoFar: nat) returns (r: Result<nat>)
    requires device.Valid() && readSoFar < buf.Length && buf.Length % SECTOR_SIZE == 0 && readSoFar % SECTOR_SIZE == 0
    requires Filled(buf[..], device.state.data, SECTOR_SIZE * zoneStart, readSoFar)
    modifies buf
    ensures r.Err? ==>
              || (r.error.FromDevice() && !device.reliable)
              || (r.error.InvalidRange? && SECTOR_SIZE * zoneStart >= |device.state.data|)
    ensures r.Ok? ==>
              && readSoFar + r.value <= buf.Length && r.value % SECTOR_SIZE == 0
              && Filled(buf[..], device.state.data, SECTOR_SIZE * zoneStart, readSoFar + r.value)
              && (r.value == 0 ==> SECTOR_SIZE * zoneStart + readSoFar >= |device.state.data|)
  {
    ghost var before := buf[..];
    var offset: u64 := zoneStart + if readSoFar % SECTOR_SIZE == 0 then readSoFar / SECTOR_SIZE else 0;
    r := device.ReadAt(offset, buf, readSoFar);
    if r.Ok? {
      FilledMore(before, buf[..], device.state.data, SECTOR_SIZE * zoneStart, readSoFar, r.value);
    }
  }

  /** The loop over short reads. */
  method ReadLoop(device: ZonedDevice, zoneStart: u64, buf: array<byte>) returns (r: Result<()>)
    requires device.Valid() && buf.Length % SECTOR_SIZE == 0
    requires Filled(buf[..], device.state.data, SECTOR_SIZE * zoneStart, 0)
    modifies buf
    ensures r.Err? ==>
              || (r.error.FromDevice() && !device.reliable)
              || (r.error.InvalidRange? && SECTOR_SIZE * zoneStart >= |device.state.data|)
    ensures r.Ok? ==> buf[..] == BytesAt(device.state.data, SECTOR_SIZE * zoneStart, buf.Length)
  {
    hide Filled, BytesAt, ValidState, Aligned;
    var readSoFar := 0;
    while readSoFar < buf.Length
      invariant readSoFar <= buf.Length && readSoFar % SECTOR_SIZE == 0
      invariant Filled(buf[..], device.state.data, SECTOR_SIZE * zoneStart, readSoFar)
    {
      var n := ReadNext(device, zoneStart, buf, readSoFar);
      if n.Err? {
        return Err(n.error);
      }
      if n.value == 0 {
        break;
      }
      readSoFar := readSoFar + n.value;
    }
    AllIsBytesAt(buf[..], device.state.data, SECTOR_SIZE * zoneStart, readSoFar);
    return Ok(());
  }

  /** The bytes of a zone, and a header more, fit 64 bits. */
  lemma ZoneBytesFit(s: DeviceState)
    requires ValidState(s)
    ensures |s.zones| > 0 && Contiguous(s.zones) && Uniform(s.zones)
    ensures SECTOR_SIZE * s.zones[0].len + HEADER_SIZE < U64_END
  {
    TotalCoversDevice(s.zones);
  }

  /** Only an index that names no zone starts past the device. */
  lemma StartsOnDevice(s: DeviceState, zoneNum: nat)
    requires ValidState(s)
    ensures zoneNum < |s.zones| ==> SECTOR_SIZE * (s.zones[0].len * zoneNum) < |s.data| < U64_END
  {
    IndexTimesSize(s.zones, zoneNum);
  }

  /** The content, cut out of everything read. */
  lemma ContentOfRead(data: seq<byte>, off: nat, n: nat, size: nat)
    requires HEADER_SIZE + size <= n
    ensures BytesAt(data, off, n)[HEADER_SIZE..HEADER_SIZE + size] == BytesAt(data, off + HEADER_SIZE, size)
  {
  }

  lemma FreshIsFilled(buf: seq<byte>, data: seq<byte>, off: nat)
    requires forall k :: 0 <= k < |buf| ==> buf[k] == 0
    ensures Filled(buf, data, off, 0)
  {
  }

  /** The file size in the first block, the count of whose read is ignored. */
  method ReadHeader(device: ZonedDevice, zoneStart: u64) returns (r: Result<nat>)
    requires device.Valid()
    ensures r.Err? ==>
              || (r.error.FromDevice() && !device.reliable)
              || (r.error.InvalidRange? && SECTOR_SIZE * zoneStart >= |device.state.data|)
    ensures r.Ok? ==> r.value == FromLittleEndian(BytesAt(device.state.data, SECTOR_SIZE * zoneStart, HEADER_SIZE))
  {
    hide ValidState, Aligned, Filled, BytesAt, FromLittleEndian;
    var firstSector := new byte[WRITE_ALIGN](_ => 0);
    FreshIsFilled(firstSector[..], device.state.data, SECTOR_SIZE * zoneStart);
    var first := ReadNext(device, zoneStart, firstSector, 0);
    if first.Err? {
      return Err(first.error);
    }
    FilledIsBytesAt(firstSector[..], device.state.data, SECTOR_SIZE * zoneStart, first.value, HEADER_SIZE);
    assert firstSector[..][..HEADER_SIZE] == firstSector[..HEADER_SIZE];
    return Ok(FromLittleEndian(firstSector[..HEADER_SIZE]));
  }

  /** Header and content, read up to the write alignment; the content is cut out. */
  method ReadContent(device: ZonedDevice, zoneStart: u64, fileSize: nat) returns (r: Result<seq<byte>>)
    requires device.Valid() && HEADER_SIZE + fileSize + WRITE_ALIGN - 1 < U64_END
    ensures r.Err? ==>
              || (r.error.FromDevice() && !device.reliable)
              || (r.error.InvalidRange? && SECTOR_SIZE * zoneStart >= |device.state.data|)
    ensures r.Ok? ==> r.value == BytesAt(device.state.data, SECTOR_SIZE * zoneStart + HEADER_SIZE, fileSize)
  {
    hide ValidState, Aligned, Filled, BytesAt;
    var readLen: u64 := PaddedLength(HEADER_SIZE + fileSize);
    var buf := new byte[readLen](_ => 0);
    FreshIsFilled(buf[..], device.state.data, SECTOR_SIZE * zoneStart);
    var all := ReadLoop(device, zoneStart, buf);
    if all.Err? {
      return Err(all.error);
    }
    ContentOfRead(device.state.data, SECTOR_SIZE * zoneStart, readLen, fileSize);
    return Ok(buf[HEADER_SIZE..HEADER_SIZE + fileSize]);
  }

  /** The reader of the synchronous example: the file stored in the zone, as its header describes it,
      whatever the short reads. */
  method ReadFile(device: ZonedDevice, zoneNum: u32) returns (r: ReadOutcome)
    requires device.Valid()
    ensures r.ReadFailed? ==>
              || (r.error.FromDevice() && !device.reliable)
              || (zoneNum >= |device.state.zones| && (r.error.InvalidRange? || r.error.Overflow?))
              || (r.error.Overflow? && SECTOR_SIZE * device.state.zones[0].len + HEADER_SIZE + WRITE_ALIGN > U64_END)
    ensures !r.ReadFailed? ==>
              var zones := device.state.zones;
              var file := FileAt(device.state.data, SECTOR_SIZE * (zones[0].len * zoneNum), SECTOR_SIZE * zones[0].len);
              r == if file.Some? then Content(file.value) else NotAFile
  {
    hide ValidState, Aligned, BytesAt, FromLittleEndian;
    ZoneBytesFit(device.state);
    var info := device.GetDeviceInfo();
    if info.Err? {
      return ReadFailed(info.error);
    }
    var zoneSize := info.value.zoneSize;
    StartsOnDevice(device.state, zoneNum);
    if zoneSize * zoneNum >= U64_END {
      return ReadFailed(Overflow);
    }
    var zoneStart: u64 := zoneSize * zoneNum;
    var header := ReadHeader(device, zoneStart);
    if header.Err? {
      return ReadFailed(header.error);
    }
    var fileSize := header.value;
    if fileSize == 0 || fileSize > zoneSize * SECTOR_SIZE {
      return NotAFile;
    }
    var totalBytes: u64 := HEADER_SIZE + fileSize;
    if totalBytes + WRITE_ALIGN - 1 >= U64_END {
      return ReadFailed(Overflow);
    }
    var content := ReadContent(device, zoneStart, fileSize);
    if content.Err? {
      return ReadFailed(content.error);
    }
    return Content(content.value);
  }

  /** The round trip: what either writer has stored in a zone, `ReadFile` reports back, byte for byte,
      for every file but the empty one, which it refuses. */
  lemma RoundTrip(s: DeviceState, zoneNum: nat, data: seq<byte>)
    requires Stored(s, zoneNum, data) && |data| < U64_END
    ensures FileAt(s.data, SECTOR_SIZE * (s.zones[0].len * zoneNum), SECTOR_SIZE * s.zones[0].len)
            == if |data| > 0 then Some(data) else None
  {
    StartIsIndexTimesSize(s.zones, zoneNum);
    StoredIsReadBack(s, zoneNum, data);
  }

  /** A file stored in another zone is still there. */
  lemma OtherFilesSurvive(s: DeviceState, t: DeviceState, i: nat, j: nat, data: seq<byte>)
    requires Stored(s, j, data) && |data| < U64_END && ValidState(t) && KeepsOthers(s, t, i) && j != i
    ensures FileAt(t.data, SECTOR_SIZE * s.zones[j].start, SECTOR_SIZE * s.zones[0].len)
            == FileAt(s.data, SECTOR_SIZE * s.zones[j].start, SECTOR_SIZE * s.zones[0].len)
  {
    assert KeepsZone(s, t, j) && ValidAt(s.zones, j);
    var off, end := SECTOR_SIZE * s.zones[j].start, SECTOR_SIZE * s.zones[j].End();
    SameFile(s.data, t.data, off, end, data, SECTOR_SIZE * s.zones[0].len);
  }

  lemma SameFile(a: seq<byte>, b: seq<byte>, off: nat, end: nat, data: seq<byte>, zoneBytes: nat)
    requires off <= end <= |a| == |b| && a[off..end] == b[off..end]
    requires off + |Payload(data)| <= |a| && a[off..off + |Payload(data)|] == Payload(data)
    requires off + HEADER_SIZE + |data| <= end && |data| < U64_END
    ensures FileAt(b, off, zoneBytes) == FileAt(a, off, zoneBytes)
  {
    PayloadParts(a, off, data);
    HeaderRange();
    LittleEndianRoundTrip(|data|, HEADER_SIZE);
    forall k | off <= k < end
      ensures a[k] == b[k]
    {
      assert a[off..end][k - off] == b[off..end][k - off];
    }
    assert BytesAt(b, off, HEADER_SIZE) == BytesAt(a, off, HEADER_SIZE);
    assert BytesAt(b, off + HEADER_SIZE, |data|) == BytesAt(a, off + HEADER_SIZE, |data|);
  }

  /** The whole trip: what either example's writer reports as written, the reader then returns, byte for
      byte, unless the device fails it; only the empty file, and in a conventional zone one that exceeds the
      buffered writer's buffer, are not promised back. */
  method WriteThenRead(device: ZonedDevice, zoneIndex: u32, data: seq<byte>, buffered: bool)
    returns (w: WriteOutcome, r: ReadOutcome)
    requires device.Valid() && HEADER_SIZE + |data| < U64_END
    modifies device
    ensures device.Valid() && KeepsOthers(old(device.state), device.state, zoneIndex)
    ensures r.ReadFailed? && w.FileWritten? ==>
              || (r.error.FromDevice() && !device.reliable)
              || SECTOR_SIZE * old(device.state).zones[0].len + HEADER_SIZE + WRITE_ALIGN > U64_END
    ensures w.FileWritten? && !r.ReadFailed? && (buffered ==> HEADER_SIZE + |data| <= BUFFER_CAPACITY) ==>
              r == if data == [] then NotAFile else Content(data)
    ensures w.FileWritten? && buffered && HEADER_SIZE + |data| > BUFFER_CAPACITY ==>
              zoneIndex < |old(device.state).zones| && old(device.state).zones[zoneIndex].zoneType.Conventional?
    ensures device.Dependable() && Storable(old(device.state), zoneIndex, data) ==>
              (buffered ==> HEADER_SIZE + |data| <= BUFFER_CAPACITY) ==> w.FileWritten?
  {
    ghost var before := device.state;
    if buffered {
      w := WriteFileSync(device, zoneIndex, data);
    } else {
      w := WriteFileAsync(device, zoneIndex, data);
    }
    SameIndex(device.state.zones, before.zones, 0);
    assert SameShape(device.state.zones[0], before.zones[0]);
    r := ReadFile(device, zoneIndex);
    if w.FileWritten? && (buffered ==> HEADER_SIZE + |data| <= BUFFER_CAPACITY) {
      RoundTrip(device.state, zoneIndex, data);
    }
  }
}
