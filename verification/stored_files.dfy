/** The on-disk format of the zone file store: an 8-byte little-endian file size, the content, and zero
    padding to the write alignment. */
module StoredFiles {
  import opened ZonedTypes
  import opened DeviceModel

  const HEADER_SIZE: nat := 8
  const WRITE_ALIGN: nat := 4096

  /** `n` rounded up to the write alignment. */
  function PaddedLength(n: nat): (r: nat)
    ensures n <= r < n + WRITE_ALIGN && r % WRITE_ALIGN == 0 && r % SECTOR_SIZE == 0
  {
    var blocks := (n + WRITE_ALIGN - 1) / WRITE_ALIGN;
    BlocksAreSectors(blocks, WRITE_ALIGN * blocks);
    WRITE_ALIGN * blocks
  }

  lemma BlocksAreSectors(blocks: nat, bytes: nat)
    requires bytes == WRITE_ALIGN * blocks
    ensures bytes % WRITE_ALIGN == 0 && bytes % SECTOR_SIZE == 0
  {
    QuotientUnique(bytes, WRITE_ALIGN, blocks);
    QuotientUnique(bytes, SECTOR_SIZE, 8 * blocks);
  }

  function Header(fileSize: nat): (r: seq<byte>)
    ensures |r| == HEADER_SIZE
  {
    ToLittleEndian(fileSize, HEADER_SIZE)
  }

  function Padding(written: nat): (r: seq<byte>)
    ensures |r| == PaddedLength(written) - written
  {
    Fill(PaddedLength(written) - written, 0)
  }

  /** What a file becomes on the device. */
  function Payload(data: seq<byte>): (r: seq<byte>)
    ensures |r| == PaddedLength(HEADER_SIZE + |data|)
  {
    Header(|data|) + data + Padding(HEADER_SIZE + |data|)
  }

  /** The padding the writers compute from the remainder. */
  lemma PaddingFromRemainder(written: nat)
    ensures PaddedLength(written) - written == if written % WRITE_ALIGN == 0 then 0 else WRITE_ALIGN - written % WRITE_ALIGN
  {
  }

  /** A payload begins with the file's size in 8 bytes, least significant first, goes on with the file itself,
      and ends in zeroes up to a multiple of the write alignment. */
  lemma PayloadShape(data: seq<byte>)
    ensures var p, end := Payload(data), HEADER_SIZE + |data|;
            && |p| % WRITE_ALIGN == 0 && end <= |p| < end + WRITE_ALIGN
            && p[0] == |data| % 256 && p[1] == |data| / 256 % 256
            && (forall k: nat :: k < HEADER_SIZE ==> p[k] == |data| / Pow256(k) % 256)
            && p[HEADER_SIZE..end] == data
            && (forall k :: end <= k < |p| ==> p[k] == 0)
  {
    forall k: nat | k < HEADER_SIZE
      ensures Payload(data)[k] == |data| / Pow256(k) % 256
    {
      LittleEndianDigit(|data|, HEADER_SIZE, k);
    }
  }

  /** Zone `i` holds the payload of `data` from its start, header and content inside its capacity. */
  ghost predicate Stored(s: DeviceState, i: nat, data: seq<byte>) {
    && ValidState(s) && i < |s.zones|
    && HEADER_SIZE + |data| <= SECTOR_SIZE * s.zones[i].capacity
    && SECTOR_SIZE * s.zones[i].start + |Payload(data)| <= |s.data|
    && s.data[SECTOR_SIZE * s.zones[i].start..SECTOR_SIZE * s.zones[i].start + |Payload(data)|] == Payload(data)
  }

  // ---------- what a reader gets ----------

  /** `n` bytes of the device from `off`; the zeroes a reader's buffer starts with where the device
      has ended. */
  function BytesAt(data: seq<byte>, off: nat, n: nat): (r: seq<byte>)
    ensures |r| == n
    ensures forall k :: 0 <= k < n ==> r[k] == if off + k < |data| then data[off + k] else 0
  {
    seq(n, k requires 0 <= k < n => if off + k < |data| then data[off + k] else 0)
  }

  /** The size in the header of the file at `off`, if the reader takes it for valid. */
  function SizeAt(data: seq<byte>, off: nat, zoneBytes: nat): Option<nat> {
    var size := FromLittleEndian(BytesAt(data, off, HEADER_SIZE));
    if size == 0 || size > zoneBytes then None else Some(size)
  }

  /** The file stored at byte `off`, if any. */
  function FileAt(data: seq<byte>, off: nat, zoneBytes: nat): Option<seq<byte>> {
    match SizeAt(data, off, zoneBytes)
    case None => None
    case Some(size) => Some(BytesAt(data, off + HEADER_SIZE, size))
  }

  /** What a reader makes of a header on the device: 8 bytes, least significant first, that say `size` are
      taken for a file of that size, the bytes behind them, unless it is 0 or exceeds the zone. */
  lemma HeaderIsRead(data: seq<byte>, off: nat, zoneBytes: nat, size: nat)
    requires off + HEADER_SIZE <= |data| && size < U64_END
    requires forall k: nat :: k < HEADER_SIZE ==> data[off + k] == size / Pow256(k) % 256
    ensures 0 < size <= zoneBytes ==>
              var file := FileAt(data, off, zoneBytes);
              && file.Some? && |file.value| == size
              && forall k :: 0 <= k < size ==>
                   var at := off + HEADER_SIZE + k;
                   file.value[k] == if at < |data| then data[at] else 0
    ensures size == 0 || size > zoneBytes ==> FileAt(data, off, zoneBytes).None?
  {
    HeaderRange();
    var header := BytesAt(data, off, HEADER_SIZE);
    forall k: nat | k < |header|
      ensures header[k] == size / Pow256(k) % 256
    {
      assert data[off + k] == size / Pow256(k) % 256;
    }
    DigitsDecode(header, size);
  }

  lemma HeaderRange()
    ensures Pow256(HEADER_SIZE) == U64_END
  {
    calc {
      Pow256(8);
      256 * Pow256(7);
      256 * 256 * Pow256(6);
      256 * 256 * 256 * Pow256(5);
      256 * 256 * 256 * 256 * Pow256(4);
      U32_END * 256 * Pow256(3);
      U32_END * 256 * 256 * Pow256(2);
      U32_END * 256 * 256 * 256 * Pow256(1);
      U64_END;
    }
  }

  lemma BytesWithin(data: seq<byte>, off: nat, n: nat)
    requires off + n <= |data|
    ensures BytesAt(data, off, n) == data[off..off + n]
  {
  }

  /** Whatever is stored is read back, byte for byte, except that the empty file is not taken for a
      file at all. */
  lemma StoredIsReadBack(s: DeviceState, i: nat, data: seq<byte>)
    requires Stored(s, i, data) && |data| < U64_END
    ensures FileAt(s.data, SECTOR_SIZE * s.zones[i].start, SECTOR_SIZE * s.zones[0].len) == if |data| > 0 then Some(data) else None
  {
    var off := SECTOR_SIZE * s.zones[i].start;
    HeaderRange();
    LittleEndianRoundTrip(|data|, HEADER_SIZE);
    PayloadParts(s.data, off, data);
    assert UniformAt(s.zones, i) && ValidAt(s.zones, i);
  }

  lemma PayloadParts(device: seq<byte>, off: nat, data: seq<byte>)
    requires off + |Payload(data)| <= |device| && device[off..off + |Payload(data)|] == Payload(data)
    ensures BytesAt(device, off, HEADER_SIZE) == Header(|data|)
    ensures BytesAt(device, off + HEADER_SIZE, |data|) == data
  {
    var p := Payload(data);
    BytesWithin(device, off, HEADER_SIZE);
    BytesWithin(device, off + HEADER_SIZE, |data|);
    PartOfPart(device, off, |p|, 0, HEADER_SIZE);
    PartOfPart(device, off, |p|, HEADER_SIZE, HEADER_SIZE + |data|);
    assert p[0..HEADER_SIZE] == Header(|data|) && p[HEADER_SIZE..HEADER_SIZE + |data|] == data;
  }

  lemma PartOfPart(device: seq<byte>, off: nat, n: nat, from: nat, to: nat)
    requires off + n <= |device| && from <= to <= n
    ensures device[off + from..off + to] == device[off..off + n][from..to]
  {
    var part := device[off..off + n];
    forall k | 0 <= k < to - from
      ensures device[off + from..off + to][k] == part[from..to][k]
    {
      assert part[from + k] == device[off + from + k];
    }
  }
}
