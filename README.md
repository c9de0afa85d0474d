# grokdisk MBR partition-table reader in Dafny

This project models the legacy (MBR) partition-table reader of grokdisk. The
reader takes a raw disk image and finds the primary partition table at byte
offset 0x1BE (446). It decodes the four 16-byte entries that follow, back to
back. It returns an image record with sector size 512, the image path, and the
four partitions in slot order. Each partition turns its sector fields into a
byte offset (`Start`) and a byte length (`Size`).

Files:

- `wrappers.dfy` (module `Wrappers`): `Option` and `Result`, standing in for
  Go's `(value, error)` returns.
- `little_endian.dfy` (module `LittleEndian`): bytes and little-endian
  unsigned integers, as `binary.Read` with `binary.LittleEndian` decodes the
  two `uint32` fields of an entry.
- `partition.dfy` (module `Grokdisk`): the constants, the records
  (`PartitionMetadata`, `Partition`, `ImageFileMetadata`), the entry decoder
  and its encoder, `Start` and `Size`, the reader as a specification function
  (`Analyze`) and as the Go reader's loop (`AnalyzeImageFile`), and the lemmas
  about them.

The file system is a map from paths to byte sequences. A path that is not in
the map cannot be opened (`OpenFailed`). Go's `Seek` on a regular file
succeeds even past the end of the file. So the seek to 446 never fails, and an
image that is too short fails at the first entry read that runs out of bytes.
The Go error does not say which slot failed. The model's `ReadFailed(slot)`
carries it, and it is determined by the image length alone: it is the first
slot whose 16 bytes are not all present. Reading succeeds exactly when the
image has at least 446 + 64 = 510 bytes.

In particular, an image of at most 446 bytes fails reading slot 0
(`NoTableFailsAtFirstRead`). In the sample image of
`SampleImageGeometry`, the sector count 0x0BF801 is 784385 sectors, so the
partition spans 401605120 bytes.

`Start` and `Size` are computed as Go computes them, as a `uint64` product
taken modulo 2^64. Their contracts prove that the product never wraps: a
32-bit sector field times a 16-bit sector size is below 2^48.

## Model

| member | source | states |
|---|---|---|
| `LittleEndian.Uint32LE` | partition.go:86-87 | four bytes read little-endian give b0 + 256·b1 + 65536·b2 + 16777216·b3, below 2^32 |
| `LittleEndian.FromToLE` | partition.go:45 | writing a value that fits in n bytes little-endian and reading it back gives the value |
| `LittleEndian.ToFromLE` | partition.go:45 | reading n little-endian bytes and writing the value back in n bytes reproduces them |
| `Grokdisk.DecodeEntry` | partition.go:77-88 | every 16 bytes decode, with no validation, and re-encoding the fields in layout order reproduces the 16 bytes |
| `Grokdisk.EntryLayout` | partition.go:77-88 | bytes 0..7 are Status, StartHead, StartSector, StartCylinder, PartitionType, EndHead, EndSector, EndCylinder in order; bytes 8..11 and 12..15 are FirstSectorLBA and SectorCount, little-endian |
| `Grokdisk.DecodeEncodeEntry` | partition.go:77-88 | decoding the encoding of any entry gives the entry back |
| `Grokdisk.ExactProduct` | partition.go:91-98 | a uint32 times a uint16 is below 2^48, so Go's wrapping uint64 multiplication equals the exact product |
| `Grokdisk.Start` | partition.go:91-93 | the start byte offset is FirstSectorLBA × sectorSize exactly, with no 64-bit overflow |
| `Grokdisk.Size` | partition.go:96-98 | the length in bytes is SectorCount × sectorSize exactly, with no 64-bit overflow |
| `Grokdisk.ZeroEntryIsEmpty` | partition.go:77-98 | an all-zero entry decodes to the all-zero record, with Start 0 and Size 0 |
| `Grokdisk.FirstMissingSlot` | partition.go:43-48 | for an image shorter than 510 bytes, the failing slot is below 4, is not fully present, and every earlier slot is |
| `Grokdisk.ReadEntry` | partition.go:44-48 | one entry read at the cursor succeeds exactly when 16 bytes remain; it then advances the cursor by 16 and the entry re-encodes to those bytes |
| `Grokdisk.Analyze` | partition.go:23-57 | fails exactly when the path cannot be opened or the image has fewer than 510 bytes, with no metadata; OpenFailed exactly for a missing path; otherwise ReadFailed names the first slot not fully present; on success SectorSize is 512, Filepath is the path, there are exactly 4 partitions, and partition k re-encodes to the bytes at 446 + 16k |
| `Grokdisk.AnalyzeImageFile` | partition.go:23-57 | the seek-then-read-four-times loop, appending one partition per slot and abandoning the partial list on a short read, returns what Analyze specifies |
| `Grokdisk.EncodeTableRun` | partition.go:43-54 | entries that each match their 16 bytes, read back to back, re-encode to the whole run of bytes |
| `Grokdisk.TableRoundTrip` | partition.go:43-54 | on success, re-encoding the four partitions in order reproduces image bytes 446..510 |
| `Grokdisk.SlotDecoded` | partition.go:43-54 | on success, partition k is the decoding of slot k's 16 bytes |
| `Grokdisk.EmptySlotKept` | partition.go:43-54 | an all-zero slot is kept verbatim at its position, not filtered out, with Start 0 and Size 0 |
| `Grokdisk.NoTableFailsAtFirstRead` | partition.go:30-47 | an image of at most 446 bytes fails reading slot 0, not at the seek |
| `Grokdisk.SampleImageGeometry` | partition.go:23-98 | a 1024-byte image with entry 80 00 01 00 0B 00 00 00 3F 00 00 00 01 F8 0B 00 in slot 0 and empty slots 1..3 gives status 0x80, type 0x0B, Start 32256, Size 401605120, and Start = Size = 0 for slots 1..3 |

## Left out

- Opening, seeking and closing the file (partition.go:24-32), including the deferred `Close`: the image is an in-memory byte sequence and the file system a map from paths to images. Every open failure (missing path, permission denied) is an absent path in the map. Directories, which open but fail at the first read, and non-seekable resources are outside the model.
- Seek failures: `Seek` to a fixed, non-negative offset on a regular file cannot fail, so there is no seek error in the model. Non-seekable resources (pipes) are outside the model.
- I/O errors in the middle of a read: the only read failure modelled is running out of bytes.
- The error message text from `errors.Wrap` (partition.go:26,31,47): errors are a plain datatype.
- `Partition.String` (partition.go:100-106): presentation text only.
- The back-pointer `Partition.ImageFile` (partition.go:51,72): `Start` and `Size` take the sector size as a parameter instead.
- The in-place append to the result's `Partitions` slice (partition.go:53): `AnalyzeImageFile` builds the list in a local sequence and stores it in the result once all four entries are read. No pointer aliasing between the record and its partitions is modelled.
- Extended partitions and GPT (partition.go:40-41): not implemented by the code, even though the doc comment at partition.go:19 mentions GUID-vs-MBR detection.
- The CHS fields are decoded and round-tripped but given no meaning.
