/**
 * The legacy (MBR) partition-table reader of grokdisk: locate the primary
 * partition table of a raw disk image, decode its four 16-byte entries, and
 * turn their sector fields into byte offsets and lengths.
 *
 * The image is an in-memory byte sequence and the file system a map from
 * paths to images, so opening, seeking and closing become reads of values.
 */
module Grokdisk {
  import opened Wrappers
  import opened LittleEndian

  type uint16 = x: int | 0 <= x < 0x1_0000
  type uint32 = x: int | 0 <= x < 0x1_0000_0000
  type uint64 = x: int | 0 <= x < 0x1_0000_0000_0000_0000

  /** Absolute byte offset of the primary partition table within the image. */
  const MBRPartitionTableOffset: nat := 0x1BE
  /** Length in bytes of one partition-table entry (grokdisk's Go code names it a table size). */
  const MBRPartitionTableSize: nat := 0x10
  /** The number of primary slots the reader decodes. */
  const SlotCount: nat := 4
  /** Bytes per sector, assumed rather than read from the image. */
  const DefaultSectorSize: uint16 := 512
  /** One past the last table byte: an image needs this many bytes to decode. */
  const TableEnd: nat := MBRPartitionTableOffset + SlotCount * MBRPartitionTableSize

  /** One 16-byte primary-partition entry, fields in on-disk order. */
  datatype PartitionMetadata = PartitionMetadata(
    status: byte,
    startHead: byte,
    startSector: byte,
    startCylinder: byte,
    partitionType: byte,
    endHead: byte,
    endSector: byte,
    endCylinder: byte,
    firstSectorLBA: uint32,
    sectorCount: uint32)

  /** A decoded entry; the owning image's sector size is passed to Start and Size instead of a back-pointer. */
  datatype Partition = Partition(metadata: PartitionMetadata)

  /** What the reader returns for one image. */
  datatype ImageFileMetadata = ImageFileMetadata(
    sectorSize: uint16,
    filepath: string,
    partitions: seq<Partition>)

  /** Why reading an image failed: it could not be opened, or slot `slot` could not be read in full. */
  datatype Error = OpenFailed | ReadFailed(slot: nat)

  /** The readable files: a path that is absent cannot be opened. */
  type FileSystem = map<string, seq<byte>>

  /** An entry whose every byte is zero: an unused slot. */
  const EmptyEntry := PartitionMetadata(0, 0, 0, 0, 0, 0, 0, 0, 0, 0)

  // ---------------------------------------------------------------------------
  // The 16-byte entry layout

  /** The 16 bytes of `m` as they lie on disk. */
  function EncodeEntry(m: PartitionMetadata): (b: seq<byte>)
    ensures |b| == MBRPartitionTableSize
  {
    [m.status, m.startHead, m.startSector, m.startCylinder,
     m.partitionType, m.endHead, m.endSector, m.endCylinder]
    + ToLE(m.firstSectorLBA, 4) + ToLE(m.sectorCount, 4)
  }

  /** Decodes one entry; no field is validated, so every 16 bytes decode, and nothing is lost. */
  function DecodeEntry(b: seq<byte>): (m: PartitionMetadata)
    requires |b| == MBRPartitionTableSize
    ensures EncodeEntry(m) == b
  {
    var lba, count := b[8..12], b[12..16];
    var m := PartitionMetadata(b[0], b[1], b[2], b[3], b[4], b[5], b[6], b[7],
                               Uint32LE(lba), Uint32LE(count));
    assert ToLE(m.firstSectorLBA, 4) == lba by { ToFromLE(lba); }
    assert ToLE(m.sectorCount, 4) == count by { ToFromLE(count); }
    assert b == b[..8] + lba + count;
    m
  }

  /** The field layout: bytes 0..7 in order, then two little-endian 32-bit integers. */
  lemma EntryLayout(b: seq<byte>)
    requires |b| == MBRPartitionTableSize
    ensures var m := DecodeEntry(b);
      && m.status == b[0] && m.startHead == b[1] && m.startSector == b[2]
      && m.startCylinder == b[3] && m.partitionType == b[4] && m.endHead == b[5]
      && m.endSector == b[6] && m.endCylinder == b[7]
      && m.firstSectorLBA == b[8] as int + 0x100 * b[9] as int + 0x1_0000 * b[10] as int + 0x100_0000 * b[11] as int
      && m.sectorCount == b[12] as int + 0x100 * b[13] as int + 0x1_0000 * b[14] as int + 0x100_0000 * b[15] as int
  {
  }

  /** Decoding the encoding of an entry gives the entry back. */
  lemma DecodeEncodeEntry(m: PartitionMetadata)
    ensures DecodeEntry(EncodeEntry(m)) == m
  {
    var b := EncodeEntry(m);
    assert b[8..12] == ToLE(m.firstSectorLBA, 4);
    assert b[12..16] == ToLE(m.sectorCount, 4);
    FromToLE(m.firstSectorLBA, 4);
    FromToLE(m.sectorCount, 4);
  }

  // ---------------------------------------------------------------------------
  // Byte geometry

  /** Go multiplies two `uint64` values modulo 2^64. */
  function MulUint64(a: uint64, b: uint64): uint64
  {
    (a * b) % 0x1_0000_0000_0000_0000
  }

  /** Multiplying by a larger factor gives a larger product. */
  lemma {:induction false} MulMonotonic(a: nat, b: nat, c: nat)
    requires b <= c
    ensures a * b <= a * c
  {
    if a > 0 {
      MulMonotonic(a - 1, b, c);
      assert a * b == (a - 1) * b + b;
      assert a * c == (a - 1) * c + c;
    }
  }

  /** A value below the modulus is its own remainder. */
  lemma SmallMod(x: nat, m: nat)
    requires x < m
    ensures x % m == x
  {
  }

  /** A 32-bit count times a 16-bit sector size fits in 48 bits, so Go's 64-bit product is exact. */
  lemma ExactProduct(a: uint32, b: uint16)
    ensures a * b < 0x1_0000_0000_0000
    ensures MulUint64(a, b) == a * b
  {
    MulMonotonic(a, b, 0xFFFF);
    MulMonotonic(0xFFFF, a, 0xFFFF_FFFF);
    assert a * 0xFFFF == 0xFFFF * a;
    assert a * b <= 0xFFFF * 0xFFFF_FFFF;
    SmallMod(a * b, 0x1_0000_0000_0000_0000);
  }

  /** Byte offset of the partition: the 64-bit product never wraps, so it is exact. */
  function Start(p: Partition, sectorSize: uint16): (r: uint64)
    ensures r == p.metadata.firstSectorLBA * sectorSize
    ensures r < 0x1_0000_0000_0000
  {
    ExactProduct(p.metadata.firstSectorLBA, sectorSize);
    MulUint64(p.metadata.firstSectorLBA, sectorSize)
  }

  /** Length of the partition in bytes: the 64-bit product never wraps, so it is exact. */
  function Size(p: Partition, sectorSize: uint16): (r: uint64)
    ensures r == p.metadata.sectorCount * sectorSize
    ensures r < 0x1_0000_0000_0000
  {
    ExactProduct(p.metadata.sectorCount, sectorSize);
    MulUint64(p.metadata.sectorCount, sectorSize)
  }

  /** An all-zero entry decodes, is kept verbatim, and starts and spans zero bytes. */
  lemma ZeroEntryIsEmpty(b: seq<byte>, sectorSize: uint16)
    requires |b| == MBRPartitionTableSize
    requires forall i :: 0 <= i < |b| ==> b[i] == 0
    ensures DecodeEntry(b) == EmptyEntry
    ensures Start(Partition(DecodeEntry(b)), sectorSize) == 0
    ensures Size(Partition(DecodeEntry(b)), sectorSize) == 0
  {
  }

  // ---------------------------------------------------------------------------
  // Table geometry

  /** Where slot `k`'s entry begins: entries follow the table offset back to back. */
  function SlotOffset(k: nat): nat
  {
    MBRPartitionTableOffset + k * MBRPartitionTableSize
  }

  /** An image of `n` bytes holds slot `k`'s entry in full. */
  predicate SlotPresent(n: nat, k: nat)
  {
    SlotOffset(k) + MBRPartitionTableSize <= n
  }

  /** The 16 bytes of slot `k`. */
  function SlotBytes(image: seq<byte>, k: nat): (b: seq<byte>)
    requires SlotPresent(|image|, k)
    ensures |b| == MBRPartitionTableSize
  {
    image[SlotOffset(k)..SlotOffset(k) + MBRPartitionTableSize]
  }

  /** For an image too short for the table, the first slot that cannot be read in full. */
  function FirstMissingSlot(n: nat): (k: nat)
    requires n < TableEnd
    ensures k < SlotCount && !SlotPresent(n, k)
    ensures forall j: nat :: j < k ==> SlotPresent(n, j)
  {
    if n < MBRPartitionTableOffset then 0
    else (n - MBRPartitionTableOffset) / MBRPartitionTableSize
  }

  // ---------------------------------------------------------------------------
  // The reader

  /** One `binary.Read` of an entry at `cursor`: the entry and the advanced cursor, or nothing on a short read. */
  function ReadEntry(image: seq<byte>, cursor: nat): (r: Option<(PartitionMetadata, nat)>)
    ensures r.Some? <==> cursor + MBRPartitionTableSize <= |image|
    ensures r.Some? ==>
      && r.value.1 == cursor + MBRPartitionTableSize
      && EncodeEntry(r.value.0) == image[cursor..cursor + MBRPartitionTableSize]
  {
    if cursor + MBRPartitionTableSize <= |image| then
      Some((DecodeEntry(image[cursor..cursor + MBRPartitionTableSize]), cursor + MBRPartitionTableSize))
    else
      None
  }

  /**
   * What reading the image at `path` yields. It fails exactly when the file is
   * absent or too short for the table, and then returns no metadata at all;
   * otherwise it holds four partitions, slot `k` reproducing the bytes of slot `k`.
   */
  function Analyze(fs: FileSystem, path: string): (r: Result<ImageFileMetadata, Error>)
    ensures r.Failure? <==> path !in fs || |fs[path]| < TableEnd
    ensures r == Failure(OpenFailed) <==> path !in fs
    ensures path in fs && r.Failure? ==>
      && r.error.ReadFailed?
      && r.error.slot < SlotCount
      && !SlotPresent(|fs[path]|, r.error.slot)
      && forall j: nat :: j < r.error.slot ==> SlotPresent(|fs[path]|, j)
    ensures r.Success? ==>
      && r.value.sectorSize == DefaultSectorSize
      && r.value.filepath == path
      && |r.value.partitions| == SlotCount
      && forall k :: 0 <= k < SlotCount ==>
           SlotPresent(|fs[path]|, k) && EncodeEntry(r.value.partitions[k].metadata) == SlotBytes(fs[path], k)
  {
    if path !in fs then Failure(OpenFailed)
    else
      var image := fs[path];
      if |image| < TableEnd then Failure(ReadFailed(FirstMissingSlot(|image|)))
      else
        var partitions := seq(SlotCount, k requires 0 <= k < SlotCount => Partition(DecodeEntry(SlotBytes(image, k))));
        Success(ImageFileMetadata(DefaultSectorSize, path, partitions))
  }

  /**
   * The reader as grokdisk's Go code runs it: open, seek to the table, then four
   * sequential reads, each appending one partition; the first short read
   * abandons the partial list.
   */
  method AnalyzeImageFile(fs: FileSystem, path: string) returns (r: Result<ImageFileMetadata, Error>)
    ensures r == Analyze(fs, path)
  {
    if path !in fs {
      return Failure(OpenFailed);
    }
    var image := fs[path];
    // Seeking a regular file never fails, even past its end.
    var cursor := MBRPartitionTableOffset;
    var partitions: seq<Partition> := [];
    for partitionIndex := 0 to SlotCount
      invariant cursor == SlotOffset(partitionIndex)
      invariant forall j :: 0 <= j < partitionIndex ==> SlotPresent(|image|, j)
      invariant |partitions| == partitionIndex
      invariant forall j :: 0 <= j < partitionIndex ==> partitions[j] == Partition(DecodeEntry(SlotBytes(image, j)))
    {
      var entry := ReadEntry(image, cursor);
      if entry.None? {
        return Failure(ReadFailed(partitionIndex));
      }
      partitions := partitions + [Partition(entry.value.0)];
      cursor := entry.value.1;
    }
    assert SlotPresent(|image|, SlotCount - 1);
    assert partitions == seq(SlotCount, k requires 0 <= k < SlotCount => Partition(DecodeEntry(SlotBytes(image, k))));
    return Success(ImageFileMetadata(DefaultSectorSize, path, partitions));
  }

  // ---------------------------------------------------------------------------
  // Properties of the reader

  /** The table as the four decoded entries lie on disk, one after another. */
  function EncodeTable(partitions: seq<Partition>): (b: seq<byte>)
    ensures |b| == |partitions| * MBRPartitionTableSize
  {
    if partitions == [] then []
    else EncodeEntry(partitions[0].metadata) + EncodeTable(partitions[1..])
  }

  /** Entries that each reproduce their 16 bytes, read back to back from `from`, reproduce the whole run. */
  lemma {:induction false} EncodeTableRun(image: seq<byte>, from: nat, partitions: seq<Partition>)
    requires from + |partitions| * MBRPartitionTableSize <= |image|
    requires forall k :: 0 <= k < |partitions| ==>
      EncodeEntry(partitions[k].metadata)
        == image[from + k * MBRPartitionTableSize..from + (k + 1) * MBRPartitionTableSize]
    ensures EncodeTable(partitions) == image[from..from + |partitions| * MBRPartitionTableSize]
    decreases |partitions|
  {
    if partitions != [] {
      var next := from + MBRPartitionTableSize;
      forall k | 0 <= k < |partitions[1..]|
        ensures EncodeEntry(partitions[1..][k].metadata)
          == image[next + k * MBRPartitionTableSize..next + (k + 1) * MBRPartitionTableSize]
      {
        assert partitions[1..][k] == partitions[k + 1];
      }
      EncodeTableRun(image, next, partitions[1..]);
      assert EncodeEntry(partitions[0].metadata) == image[from..next];
    }
  }

  /** On success, re-encoding the four partitions reproduces the 64 table bytes of the image. */
  lemma TableRoundTrip(fs: FileSystem, path: string)
    requires Analyze(fs, path).Success?
    ensures EncodeTable(Analyze(fs, path).value.partitions)
      == fs[path][MBRPartitionTableOffset..TableEnd]
  {
    var image, partitions := fs[path], Analyze(fs, path).value.partitions;
    forall k | 0 <= k < |partitions|
      ensures EncodeEntry(partitions[k].metadata)
        == image[MBRPartitionTableOffset + k * MBRPartitionTableSize..MBRPartitionTableOffset + (k + 1) * MBRPartitionTableSize]
    {
      assert EncodeEntry(partitions[k].metadata) == SlotBytes(image, k);
    }
    EncodeTableRun(image, MBRPartitionTableOffset, partitions);
  }

  /** Partition `k` is exactly the entry stored in slot `k`: decoded, not filtered or reordered. */
  lemma SlotDecoded(fs: FileSystem, path: string, k: nat)
    requires Analyze(fs, path).Success? && k < SlotCount
    ensures SlotPresent(|fs[path]|, k)
    ensures Analyze(fs, path).value.partitions[k].metadata == DecodeEntry(SlotBytes(fs[path], k))
  {
  }

  /** An unused, all-zero slot is kept in place in the result, with zero start and size. */
  lemma EmptySlotKept(fs: FileSystem, path: string, k: nat)
    requires Analyze(fs, path).Success? && k < SlotCount
    requires forall i :: SlotOffset(k) <= i < SlotOffset(k) + MBRPartitionTableSize ==> fs[path][i] == 0
    ensures var md := Analyze(fs, path).value;
      && md.partitions[k].metadata == EmptyEntry
      && Start(md.partitions[k], md.sectorSize) == 0
      && Size(md.partitions[k], md.sectorSize) == 0
  {
    SlotDecoded(fs, path, k);
    var b := SlotBytes(fs[path], k);
    forall i | 0 <= i < |b| ensures b[i] == 0 {
      assert b[i] == fs[path][SlotOffset(k) + i];
    }
    ZeroEntryIsEmpty(b, DefaultSectorSize);
  }

  /** An image that ends at or before the table offset fails reading slot 0, not at the seek. */
  lemma NoTableFailsAtFirstRead(fs: FileSystem, path: string)
    requires path in fs && |fs[path]| <= MBRPartitionTableOffset
    ensures Analyze(fs, path) == Failure(ReadFailed(0))
  {
  }

  /** Slot 0 of the sample image: active (0x80), type 0x0B, first LBA 63, 784385 (0x0BF801) sectors. */
  const SampleEntry: seq<byte> :=
    [0x80, 0x00, 0x01, 0x00, 0x0B, 0x00, 0x00, 0x00, 0x3F, 0x00, 0x00, 0x00, 0x01, 0xF8, 0x0B, 0x00]

  /** A 1024-byte image whose table holds SampleEntry in slot 0 and three empty slots. */
  function SampleImage(): seq<byte>
  {
    seq(1024, i requires 0 <= i < 1024 =>
      if SlotOffset(0) <= i < SlotOffset(1) then SampleEntry[i - SlotOffset(0)] else 0)
  }

  /** The sample image decodes to a partition at byte 32256 spanning 401605120 bytes, and three empty ones. */
  lemma SampleImageGeometry(fs: FileSystem, path: string)
    requires path in fs && fs[path] == SampleImage()
    ensures Analyze(fs, path).Success?
    ensures var md := Analyze(fs, path).value;
      && md.partitions[0].metadata.status == 0x80
      && md.partitions[0].metadata.partitionType == 0x0B
      && Start(md.partitions[0], md.sectorSize) == 32256
      && Size(md.partitions[0], md.sectorSize) == 401605120
      && forall k :: 1 <= k < SlotCount ==>
           Start(md.partitions[k], md.sectorSize) == 0 && Size(md.partitions[k], md.sectorSize) == 0
  {
    var image := fs[path];
    SlotDecoded(fs, path, 0);
    forall i | 0 <= i < MBRPartitionTableSize ensures SlotBytes(image, 0)[i] == SampleEntry[i] {
      assert SlotOffset(0) == 446 && SlotOffset(1) == 462;
      assert SlotBytes(image, 0)[i] == image[SlotOffset(0) + i];
    }
    assert SlotBytes(image, 0) == SampleEntry;
    EntryLayout(SampleEntry);
    forall k | 1 <= k < SlotCount
      ensures var md := Analyze(fs, path).value;
        Start(md.partitions[k], md.sectorSize) == 0 && Size(md.partitions[k], md.sectorSize) == 0
    {
      forall i | SlotOffset(k) <= i < SlotOffset(k) + MBRPartitionTableSize ensures image[i] == 0 {
        assert !(SlotOffset(0) <= i < SlotOffset(1));
      }
      EmptySlotKept(fs, path, k);
    }
  }
}
