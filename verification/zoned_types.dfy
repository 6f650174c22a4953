/** The value types of the crate: sectors, zones, commands, errors, and byte encodings. */
module ZonedTypes {

  const SECTOR_SIZE: nat := 512
  const U64_END: nat := 0x1_0000_0000_0000_0000
  const U32_END: nat := 0x1_0000_0000
  const I64_MIN: int := -0x8000_0000_0000_0000

  /** A 64-bit unsigned value; every sum or product assigned to one is proved not to wrap. */
  type u64 = x: int | 0 <= x < U64_END

  type u32 = x: int | 0 <= x < U32_END

  type i64 = x: int | I64_MIN <= x < 0x8000_0000_0000_0000

  type byte = x: int | 0 <= x < 256

  datatype Option<+T> = None | Some(value: T)

  datatype Result<+T> = Ok(value: T) | Err(error: ZonedError)

  /** The crate's errors, and `Overflow`: an integer operation left its type, where the program is aborted. */
  datatype ZonedError =
    | Io
    | Ioctl
    | NotZoned
    | InvalidRange(sector: nat, nrSectors: nat)
    | ReadOnly
    | ZoneAlreadyAllocated(zoneIndex: nat)
    | ZoneNotAllocated(zoneIndex: nat)
    | ZoneFull(zoneIndex: nat)
    | Overflow
  {
    /** The environment failed: an I/O call or an ioctl did, or the device is read-only. */
    predicate FromDevice() {
      Io? || Ioctl? || NotZoned? || ReadOnly?
    }
  }

  datatype ZoneType = Conventional | SequentialWriteRequired | SequentialWritePreferred

  datatype ZoneCondition =
    | NotWritePointer
    | Empty
    | ImplicitlyOpen
    | ExplicitlyOpen
    | Closed
    | ReadOnlyZone
    | Full
    | Offline

  datatype ZoneCommand = Reset | Open | Close | Finish

  datatype Zone = Zone(
    start: nat,
    len: nat,
    capacity: nat,
    writePointer: Option<nat>,
    zoneType: ZoneType,
    condition: ZoneCondition)
  {
    /** First sector after the zone. */
    function End(): nat {
      start + len
    }

    /** First sector after the writable part of the zone. */
    function CapacityEnd(): nat {
      start + capacity
    }

    /** The zone can take write-pointer commands and writes at its pointer. */
    predicate Active() {
      condition.Empty? || condition.ImplicitlyOpen? || condition.ExplicitlyOpen? || condition.Closed?
    }

    /** The device's own write pointer means something (not for read-only or offline zones). */
    predicate HasWritePointer() {
      Active() || condition.Full?
    }

    /** Whole sectors still writable; `None` when the subtraction underflows, which aborts the program. */
    function RemainingCapacity(): Option<nat> {
      match writePointer
      case None => Some(capacity)
      case Some(wp) =>
        if start <= wp && wp - start <= capacity then Some(capacity - (wp - start)) else None
    }

    ghost predicate Valid() {
      && 0 < capacity <= len
      && (zoneType.Conventional? ==>
            && writePointer.None?
            && (condition.NotWritePointer? || condition.ReadOnlyZone? || condition.Offline?))
      && (!zoneType.Conventional? ==>
            && !condition.NotWritePointer?
            && writePointer.Some?
            && start <= writePointer.value <= End()
            && (condition.Empty? ==> writePointer.value == start)
            && (condition.Full? ==> writePointer.value == End())
            && (Active() ==> writePointer.value < CapacityEnd()))
    }
  }

  /** `remaining_capacity` aborts on a valid zone exactly when its pointer lies past the capacity, which on
      a zone with a meaningful pointer means that it is full and its capacity smaller than its length. */
  lemma RemainingCapacityUnderflow(z: Zone)
    requires z.Valid()
    ensures z.RemainingCapacity().None? <==> z.writePointer.Some? && z.writePointer.value > z.CapacityEnd()
    ensures z.HasWritePointer() ==> (z.RemainingCapacity().None? <==> z.condition.Full? && z.capacity < z.len)
    ensures z.Active() ==> z.RemainingCapacity() == Some(z.CapacityEnd() - z.writePointer.value)
    ensures z.writePointer.None? ==> z.RemainingCapacity() == Some(z.capacity)
  {
    assert !z.zoneType.Conventional? ==> z.writePointer.Some?;
  }

  /** The filter of `report_zones_filtered`. */
  datatype ZoneFilter = ZoneFilter(zoneTypes: seq<ZoneType>, conditions: seq<ZoneCondition>) {
    predicate Matches(z: Zone) {
      && (|zoneTypes| == 0 || z.zoneType in zoneTypes)
      && (|conditions| == 0 || z.condition in conditions)
    }
  }

  // ---------- bytes ----------

  function Fill(n: nat, b: byte): (r: seq<byte>)
    ensures |r| == n && forall i :: 0 <= i < n ==> r[i] == b
  {
    seq(n, _ => b)
  }

  /** `data` with `bytes` written at offset `off`. */
  function Splice(data: seq<byte>, off: nat, bytes: seq<byte>): (r: seq<byte>)
    requires off + |bytes| <= |data|
    ensures |r| == |data|
    ensures forall k :: 0 <= k < |data| ==> r[k] == if off <= k < off + |bytes| then bytes[k - off] else data[k]
  {
    data[..off] + bytes + data[off + |bytes|..]
  }

  /** Two adjacent writes are one write of both buffers. */
  lemma SpliceAppend(data: seq<byte>, off: nat, a: seq<byte>, b: seq<byte>)
    requires off + |a| + |b| <= |data|
    ensures Splice(Splice(data, off, a), off + |a|, b) == Splice(data, off, a + b)
  {
  }

  lemma SpliceTail(data: seq<byte>, from: nat, off: nat, bytes: seq<byte>)
    requires from <= off && off + |bytes| <= |data|
    ensures Splice(data, off, bytes)[from..off + |bytes|] == data[from..off] + bytes
  {
  }

  lemma SpliceCommute(data: seq<byte>, off: nat, a: seq<byte>, off': nat, b: seq<byte>)
    requires off + |a| <= |data| && off' + |b| <= |data|
    requires off + |a| <= off' || off' + |b| <= off
    ensures Splice(Splice(data, off, a), off', b) == Splice(Splice(data, off', b), off, a)
  {
  }

  function Flatten(bufs: seq<seq<byte>>): seq<byte> {
    if bufs == [] then [] else bufs[0] + Flatten(bufs[1..])
  }

  // ---------- little-endian integers ----------

  function Pow256(n: nat): (r: nat)
    ensures r > 0
  {
    if n == 0 then 1 else 256 * Pow256(n - 1)
  }

  function ToLittleEndian(v: nat, n: nat): (r: seq<byte>)
    ensures |r| == n
  {
    if n == 0 then [] else [v % 256] + ToLittleEndian(v / 256, n - 1)
  }

  function FromLittleEndian(s: seq<byte>): nat {
    if s == [] then 0 else s[0] + 256 * FromLittleEndian(s[1..])
  }

  lemma ProductMonotone(d: nat, a: nat, b: nat)
    requires a <= b
    ensures d * a <= d * b
  {
  }

  lemma QuotientUnique(x: nat, d: nat, q: nat)
    requires d > 0
    requires d * q <= x < d * q + d
    ensures x / d == q
  {
    var k := x / d;
    assert d * k <= x < d * k + d;
    if k < q {
      ProductMonotone(d, k + 1, q);
    } else if q < k {
      ProductMonotone(d, q + 1, k);
    }
  }

  /** Dividing twice is dividing by the product. */
  lemma QuotientOfQuotient(v: nat, p: nat)
    requires p > 0
    ensures v / 256 / p == v / (256 * p)
  {
    var u, q := v / 256, v / 256 / p;
    var product := p * q;
    assert product <= u < product + p;
    assert 256 * u <= v < 256 * u + 256;
    assert (256 * p) * q == 256 * product;
    QuotientUnique(v, 256 * p, q);
  }

  /** Byte `k` of the encoding is the digit of weight 256^k: least significant first. */
  lemma {:induction false} LittleEndianDigit(v: nat, n: nat, k: nat)
    requires k < n
    ensures ToLittleEndian(v, n)[k] == v / Pow256(k) % 256
  {
    if k > 0 {
      LittleEndianDigit(v / 256, n - 1, k - 1);
      QuotientOfQuotient(v, Pow256(k - 1));
    }
  }

  /** The other direction: bytes that are the digits of `v`, least significant first, are decoded as `v`. */
  lemma DigitsDecode(s: seq<byte>, v: nat)
    requires v < Pow256(|s|)
    requires forall k: nat :: k < |s| ==> s[k] == v / Pow256(k) % 256
    ensures FromLittleEndian(s) == v
  {
    forall k: nat | k < |s|
      ensures s[k] == ToLittleEndian(v, |s|)[k]
    {
      LittleEndianDigit(v, |s|, k);
    }
    assert s == ToLittleEndian(v, |s|);
    LittleEndianRoundTrip(v, |s|);
  }

  lemma {:induction false} LittleEndianRoundTrip(v: nat, n: nat)
    requires v < Pow256(n)
    ensures FromLittleEndian(ToLittleEndian(v, n)) == v
  {
    if n == 0 {
    } else {
      LittleEndianRoundTrip(v / 256, n - 1);
      assert ToLittleEndian(v, n)[1..] == ToLittleEndian(v / 256, n - 1);
    }
  }
}
