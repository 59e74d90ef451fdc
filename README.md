# Broadcom PXE NVRAM option-ROM tool, modelled in Dafny

The tool reads the NVRAM dump of a Broadcom network card. The dump is a
256-byte header followed by data bytes. The header holds a magic word, four
reserved words, a directory of eight entries, a single byte, the
directory checksum `DirCRC`, 134 bytes of VPD and the VPD checksum `Crc`.
Each entry is a padding word, a `TypeSize` word (type in the top 8 bits,
size in the low 24) and an offset. The tool has two commands:

- `check` verifies three checksums, in this order:
  - the directory checksum, the 8-bit negated byte sum of the directory;
  - the VPD checksum, a byte-swapped CRC-32 of bytes 116..252;
  - the option-ROM checksum, a byte-swapped CRC-32 stored big-endian in
    the last four bytes of the region of the first entry of type 0 with a
    non-zero size.
- `writeOptionRom` installs a ROM image at that entry's offset, records
  its length in the entry, then sets the three checksums in the same order.

The model has these modules:

| module | file | what it holds |
|---|---|---|
| `Bits` | bits.dfy | small facts about masks and widths of bit-vectors |
| `Errors` | errors.dfy | the error kinds, `Result`, `Option` and `Outcome` |
| `Endian` | endian.dfy | bytes as `bv8`, big- and little-endian words, slice lemmas |
| `Crc` | crc.dfy | `Reverse`, `Crc8` and `Crc32`, with the loops as methods |
| `Directory` | directory.dfy | `TypeSize` accessors, entries, the header and its 256-byte codec |
| `NvRange` | nvrange.dfy | `Range` and the three fixed header windows |
| `Nvram` | nvram.dfy | the image as a value (`Image`) and the class `NVRAM` that the policies update in place |
| `Policies` | policies.dfy | each check and setter as a function on images, and what the two command orders guarantee |
| `Tool` | tool.dfy | the checks and setters as methods on an `NVRAM` object, proved equal to the policy functions, and the two commands |

The main results are these:

- `Policies.WriteThenCheck` and `Tool.WriteOptionRom`: whenever every
  setter of `writeOptionRom` succeeds, the bytes written read back as an
  image that passes every check of `check`.
- Each setter is partnered with its check, with a postcondition that the
  check then passes.
- Each check is stated as a property of the serialised bytes, both ways.
- The codec round-trips both ways.
- `GetRange` and `SetRange` have full contracts that cover every error
  branch.

The size unit is modelled as the code has it. The installer stores the
image length in bytes in the size field (`main.go:177`). The option-ROM
policies read the same field as a count of 32-bit words
(`main.go:108`, `main.go:137`). `Policies.InstallRegionLength` states the
consequence: after an installation, the ROM region is four times the
image length.

## Model

| member | source | states |
|---|---|---|
| Crc.Reverse | pkg/crc/crc.go:5-9 | the big-endian bytes of the swapped word are the little-endian bytes of the word: byte i moves to byte 3-i |
| Crc.ReverseInvolution | pkg/crc/crc.go:5-9 | swapping twice gives the word back |
| Crc.Crc8 | pkg/crc/crc.go:11-22 | the 8-bit byte sum of the input plus the result wraps to zero |
| Crc.Crc8Unique | pkg/crc/crc.go:11-22 | the result is the only byte that brings the 8-bit sum to zero |
| Crc.ComputeCrc8 | pkg/crc/crc.go:11-22 | the summing loop followed by `(x ^ 0xFF) + 1` returns Crc8 |
| Crc.Crc8Negation | pkg/crc/crc.go:15-21 | numerically, Crc8 is (256 - (byte sum mod 256)) mod 256 |
| Crc.Crc8Empty | pkg/crc/crc.go:21 | Crc8 of no bytes is 0, because 0xFF + 1 wraps |
| Crc.Sum8Append | pkg/crc/crc.go:16-18 | the byte sum of a concatenation is the 8-bit sum of the parts' sums |
| Crc.Sum8Permutation | pkg/crc/crc.go:16-18 | inputs with the same multiset of bytes have the same byte sum |
| Crc.Crc8Permutation | pkg/crc/crc.go:16-18 | Crc8 depends only on the multiset of the input bytes |
| Crc.Crc32 | pkg/crc/crc.go:24-47 | the result XOR 0xFFFFFFFF is the register after folding every byte into 0xFFFFFFFF; no bytes give 0 |
| Crc.UpdateByteUnrolled | pkg/crc/crc.go:35-43 | one byte is eight LSB-first steps `r>>1 ^ (0xEDB88320 if (r^v)&1 else 0)`, v shifted right by one each step |
| Crc.ShiftInByte | pkg/crc/crc.go:32-43 | the inner 8-step loop leaves the register of the per-byte update |
| Crc.ComputeCrc32 | pkg/crc/crc.go:24-47 | the nested loop returns Crc32 |
| Crc.FoldAppend | pkg/crc/crc.go:31-44 | folding b ++ c is folding c into the register left by b |
| Crc.RegisterAppend | pkg/crc/crc.go:31-44 | the register after b ++ c is the fold over c started from the register after b |
| Crc.Crc32CheckValue | pkg/crc/crc.go:24-47 | the CRC-32 of ISO/IEC 13239 check string "123456789" is 0xCBF43926 |
| Directory.Size | pkg/nvram/directory/directory.go:12-14 | the size is below 2^24 |
| Directory.Type | pkg/nvram/directory/directory.go:16-18 | the type is below 256 |
| Directory.TypeSizeSplit | pkg/nvram/directory/directory.go:12-18 | type * 2^24 + size is the raw word |
| Directory.SetSize | pkg/nvram/directory/directory.go:20-26 | for a size with a zero top byte, the size becomes it and the type is kept |
| Directory.SmallSizeFits | pkg/nvram/directory/directory.go:21-23 | every length below 2^24 passes the panic guard |
| Directory.SetType | pkg/nvram/directory/directory.go:28-30 | the type becomes the given byte and the size is kept |
| Directory.EncodeEntry | pkg/nvram/directory/directory.go:32-36 | an entry encodes to 12 bytes |
| Directory.EncodeEntries | pkg/nvram/directory/directory.go:49-51 | the directory encodes to 12 bytes per entry |
| Directory.EncodeHeader | pkg/nvram/directory/directory.go:53-61 | the header encodes to 256 bytes: magic, reserved words, directory, SingleByte, DirCRC, VPD and Crc at offsets 0, 4, 20, 116, 117, 118 and 252, words big-endian |
| Directory.EntryBytes | pkg/nvram/directory/directory.go:49-51 | entry k is bytes [12k, 12k+12) of the encoded directory |
| Directory.EntryLayout | pkg/nvram/directory/directory.go:32-36 | entry k sits at [20+12k, 32+12k) of the header, TypeSize big-endian at 24+12k and Offset at 28+12k |
| Directory.DecodeEntry | pkg/nvram/directory/directory.go:32-36 | 12 bytes decode to an entry that encodes back to them |
| Directory.DecodeEntries | pkg/nvram/directory/directory.go:49-51 | 96 bytes decode to eight entries that encode back to them |
| Directory.HeaderFields | pkg/nvram/directory/directory.go:53-61 | 256 bytes decode to a header that encodes back to them |
| Directory.DecodeHeader | pkg/nvram/directory/directory.go:63-71 | decoding fails, with ShortHeader, exactly when fewer than 256 bytes are available; otherwise the header encodes back to the first 256 bytes |
| Directory.EncodeHeaderInjective | pkg/nvram/directory/directory.go:53-61 | distinct headers encode to distinct bytes |
| Directory.DecodeEncodeHeader | pkg/nvram/directory/directory.go:63-71 | encoding a header and decoding it, whatever follows, gives the header back |
| NvRange.DirectoryCrcRangeIsDirectory | pkg/nvram/nvrange/nvrange.go:8-11 | [20, 116) is exactly the encoded Directory field |
| NvRange.DirectoryCrcLocationIsDirCrc | pkg/nvram/nvrange/nvrange.go:13-16 | [117, 118) is exactly the DirCRC byte |
| NvRange.VpdCrcRangeCovers | pkg/nvram/nvrange/nvrange.go:18-21 | [116, 252) is SingleByte, DirCRC and the VPD, and ends where Crc begins |
| NvRange.RangeLayout | pkg/nvram/nvrange/nvrange.go:8-21 | all three windows lie in the header; DirCRC is outside the directory window but inside the VPD window; Crc is outside the VPD window |
| Nvram.Image.Encode | pkg/nvram/nvram.go:80-90 | the image serialises to the 256 header bytes, then the data |
| Nvram.Image.GetRange | pkg/nvram/nvram.go:18-41 | fails when start + length passes 256 + len(data), or when the range straddles byte 256; otherwise returns length bytes, from the encoded header or from the data at start - 256 |
| Nvram.Image.SetRange | pkg/nvram/nvram.go:43-63 | fails, in this order, on a length mismatch, on the bound check, on a start in the header; on success keeps the header and the data length, puts the bytes at start - 256 and keeps every other byte |
| Nvram.Image.Decode | pkg/nvram/nvram.go:65-78 | fails exactly on a stream shorter than a header; on success the image serialises back to the stream |
| Nvram.GetRangeEncoded | pkg/nvram/nvram.go:18-41 | a readable range reads as the same span of the serialised image |
| Nvram.GetRangeWithin | pkg/nvram/nvram.go:18-41 | a range inside a readable range reads as the matching part of it |
| Nvram.GetRangeAgrees | pkg/nvram/nvram.go:38-40 | images with the same header and agreeing data under a range read it alike |
| Nvram.GetAfterSet | pkg/nvram/nvram.go:43-63 | after a successful write, the range reads back as the bytes written |
| Nvram.GetAfterSetElsewhere | pkg/nvram/nvram.go:43-63 | a write leaves every disjoint range reading as before |
| Nvram.SetRangeUnchanged | pkg/nvram/nvram.go:43-63 | writing back what a data range holds changes nothing |
| Nvram.WriteTail | pkg/nvram/nvram.go:43-63 | writing the last four bytes of a data range leaves it reading as its old bytes but the last four, then the new ones |
| Nvram.DecodeEncode | pkg/nvram/nvram.go:65-90 | reading back what WriteTo writes gives the same image |
| Nvram.EncodeDecode | pkg/nvram/nvram.go:65-90 | a stream of at least 256 bytes read and written again is the same stream |
| Nvram.NVRAM.constructor | pkg/nvram/nvram.go:13-16 | the zero NVRAM has the zero header and no data |
| Nvram.NVRAM.SetRange | pkg/nvram/nvram.go:43-63 | the in-place copy leaves the state of Image.SetRange, or changes nothing and reports its error |
| Nvram.NVRAM.FromReader | pkg/nvram/nvram.go:65-78 | the object takes the decoded image, or changes nothing and reports ShortHeader |
| Policies.DirectoryCheckMeaning | main.go:20-48 | the directory check passes exactly when the directory bytes and DirCRC add up to zero in 8-bit arithmetic |
| Policies.DirectorySetThenCheck | main.go:50-66 | after the directory setter the check passes; the setter is idempotent and changes only DirCRC |
| Policies.VpdCheckMeaning | main.go:71-86 | the VPD check passes exactly when header bytes [252, 256) are the CRC-32 of [116, 252), least significant byte first |
| Policies.VpdSetThenCheck | main.go:88-98 | after the VPD setter the check passes; the setter is idempotent, changes only Crc and keeps the directory check's verdict |
| Policies.DirectoryCrcInVpdWindow | main.go:290-295 | a header whose DirCRC is changed has a different VPD window: the bytes the VPD CRC is computed over include the directory checksum |
| Policies.FirstRom | main.go:103-105 | the selected entry is an option-ROM entry and none before it is; there is none exactly when no entry has type 0 and a non-zero size |
| Policies.RomRegion | main.go:106-109 | the ROM region starts at the entry's offset, is below 2^26 bytes, and is at least 4 bytes for an option-ROM entry |
| Policies.RomSlot | main.go:146-149 | the checksum slot is the last four bytes of the region |
| Policies.RomCrcCarried | main.go:113-121 | the stored checksum equals the computed one exactly when the last four bytes are the big-endian computed checksum |
| Policies.RomCheckPasses | main.go:103-130 | the ROM check passes exactly when an option-ROM entry exists, its region can be read, and the region carries its checksum |
| Policies.RomCheckMeaning | main.go:103-130 | the same, read off the serialised image: the last four bytes of the region hold the byte-swapped CRC-32 of the bytes before them |
| Policies.RomSetOutcome | main.go:132-159 | the ROM setter fails with NoRomEntry without an option-ROM entry; otherwise it succeeds exactly when the region lies in the data; success keeps the header and the data length |
| Policies.ChecksumWritten | main.go:140-154 | a region with its checksum written into its last four bytes carries that checksum |
| Policies.RomSetWrites | main.go:132-159 | a successful ROM setter is the write of the big-endian checksum into the slot |
| Policies.RomSetThenCheck | main.go:132-159 | after a successful ROM setter, the ROM check passes |
| Policies.RomSetIdempotent | main.go:132-159 | the ROM setter run on its own output changes nothing |
| Policies.InstallOutcome | main.go:165-182 | the installer fails with NoRomEntry without an option-ROM entry; otherwise it succeeds exactly when the offset lies in the data with room for the image |
| Policies.InstallData | main.go:165-182 | on success, the image sits at offset - 256 in the data and every other data byte is kept |
| Policies.InstallHeader | main.go:165-182 | on success, the entry's size becomes len(rom) with its type, offset and padding kept; every other entry and header field is kept |
| Policies.InstallRegionLength | main.go:165-182 | after installing a non-empty image, the same entry is selected and its ROM region is 4 * len(rom) bytes long |
| Policies.CheckAll | main.go:276-280 | the checks pass exactly when each passes; a failure is that of the first failing check, all before it passing |
| Policies.ApplyKeepsReady | main.go:308-312 | every setter, when it succeeds, leaves an image on which the next setter can run without wrap-around |
| Policies.SetAll | main.go:308-312 | running the setters in turn keeps the image ready for the next |
| Policies.WriteOrderSteps | main.go:290-312 | the write order is install, then directory, VPD and ROM setter, each on the previous output |
| Policies.CheckOrderPasses | main.go:270-280 | the check order passes when the directory, VPD and ROM checks each pass |
| Policies.CheckOrderMeaning | main.go:270-280 | the check order passes exactly when each of its three checks passes |
| Policies.WriteThenCheck | main.go:290-312 | when every setter of the write order succeeds, the result passes every check of the check order |
| Tool.FixedRanges | pkg/nvram/nvrange/nvrange.go:8-21 | the three fixed windows always read as the directory bytes, the DirCRC byte and the VPD window |
| Tool.CheckDirectoryChecksum | main.go:20-48 | the method returns the directory check's verdict |
| Tool.SetDirectoryChecksum | main.go:50-66 | the object is left as the directory setter leaves the image |
| Tool.CheckVpdChecksum | main.go:71-86 | the method returns the VPD check's verdict |
| Tool.SetVpdChecksum | main.go:88-98 | the object is left as the VPD setter leaves the image |
| Tool.CheckRomChecksumAt | main.go:106-127 | from the selected entry on, the method returns the ROM check's verdict |
| Tool.CheckRomChecksum | main.go:103-130 | the scan over the entries returns the ROM check's verdict |
| Tool.SetRomChecksumAt | main.go:136-155 | from the selected entry on, the object is left as the ROM setter leaves it, or unchanged with its error |
| Tool.SetRomChecksum | main.go:132-159 | the scan over the entries leaves the object as the ROM setter does, or unchanged with its error |
| Tool.WriteRomBinaryAt | main.go:167-179 | from the selected entry on, the object is left as the installer leaves it, or unchanged with its error |
| Tool.WriteRomBinary | main.go:165-182 | the scan over the entries leaves the object as the installer does, or unchanged with its error |
| Tool.RunCheck | main.go:276-277 | dispatching a check returns that policy's verdict |
| Tool.RunSet | main.go:308-309 | dispatching a setter leaves the object as that policy's setter does |
| Tool.RunChecks | main.go:276-280 | the check loop returns the verdict of the checks in turn, stopping at the first failure |
| Tool.RunSetters | main.go:308-312 | the set loop leaves the object as the setters in turn do, and reports the first failure |
| Tool.CheckCommand | main.go:257-281 | a stream shorter than a header fails; otherwise the verdict is that of the check order, which passes exactly when all three checks pass |
| Tool.WriteOptionRom | main.go:283-322 | a short stream fails; otherwise the command returns the serialised result of the write order, or its first error; bytes it returns read back as an image that passes every check |

## Left out

- Command-line handling, logging, opening and writing files, and
  printing "OK" are not modelled. The commands take the file contents as
  byte sequences, and a fatal log becomes a returned failure.
- `io.Reader`, `io.Writer` and the reflection in `encoding/binary` are not
  modelled. `FromReader` and `WriteTo` work on byte sequences with an
  explicit header codec. Read errors other than a short header cannot
  happen on a sequence.
- `Entry.String` and `GoString` are formatting only.
- Both directory policies serialise the header into a buffer that is
  never used (`main.go:22-25`, `main.go:52-55`). This is not modelled.
- The byte count `WriteTo` returns is always 0. `NVRAM.WriteTo` returns
  the bytes written instead.
- uint32 wrap-around is replaced by preconditions:
  - in `start + length` and `256 + len(data)` (`Range.NoWrap`,
    `Image.Valid`);
  - in `Offset + 4 * Size` (`RomFits`);
  - in `Offset + len(rom)` (`InstallFits`);
  - across the write order, in `Ready`, which bounds the offset of every
    entry of type 0 by 2^32 - 2^26. Entries of other types are not
    bounded, so an erased entry (all bits set) is accepted.

  The Go slice panics that a wrapped end can cause are not modelled.
- The `int32` loop index of `Crc8` (wraps after 2^31 bytes) and the
  `uint32` index of `Crc32` are not modelled. Indices are unbounded.
- The `SetSize` panic is a precondition (`Directory.SetSize` requires a
  zero top byte). The installer requires `len(rom) < 2^24`.
- `Directory.SetSize` and `Directory.SetType` overwrite the word their
  receiver `*t` refers to. They are modelled as functions that return the new word. The
  installer stores that word in the entry of the `NVRAM` object
  (`Tool.WriteRomBinaryAt`).
- The data branch of `GetRange` returns a slice that aliases the data.
  The model returns a copy.
- Error messages and their `%w` wrapping are not modelled. The error kind
  and the values it reports are kept.
- The directory and VPD policies have error branches for `GetRange` on
  their fixed windows, and for reading one byte. Those branches cannot be
  taken on an image with a full header (`Tool.FixedRanges`), so the
  methods have none. The setters of those two policies return nothing.
- Policies.DirectoryCrcInVpdWindow: states only that changing DirCRC
  changes the VPD window. That the VPD checksum of the old window then
  fails needs CRC-32 to tell apart windows that differ in one byte, which
  is not proved.
- Tool.RunSetters: after a failing setter the state of the object is
  left unspecified. The command stops at that point.
