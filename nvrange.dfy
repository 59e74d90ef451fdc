/** Byte ranges over the logical image (header followed by data) and the
    three named ranges of the header that the checksums cover or occupy. */
module NvRange {
  import opened Directory

  /** A window of `length` bytes from absolute offset `start`. `nvrange.Range`
      stores both as uint32; the model keeps them unbounded and asks for
      NoWrap wherever the tool adds them. */
  datatype Range = Range(start: nat, length: nat) {
    function End(): nat { start + length }

    /** start + length fits in 32 bits, so the uint32 sum does not wrap. */
    predicate NoWrap() { start + length < 0x1_0000_0000 }

    predicate DisjointFrom(other: Range) { End() <= other.start || other.End() <= start }

    predicate Within(other: Range) { other.start <= start && End() <= other.End() }
  }

  /** The 96 bytes the directory checksum covers. */
  const DirectoryCrcRange := Range(20, 96)
  /** The byte that stores the directory checksum. */
  const DirectoryCrcLocation := Range(117, 1)
  /** The 136 bytes the VPD checksum covers. */
  const VpdCrcRange := Range(116, 136)

  /** The whole header, and the trailing Crc field. */
  const HeaderRange := Range(0, HeaderSize)
  const CrcField := Range(CrcOffset, 4)

  /** DirectoryCrcRange is exactly the bytes of the Directory field. */
  lemma DirectoryCrcRangeIsDirectory(h: Header)
    ensures EncodeHeader(h)[DirectoryCrcRange.start..DirectoryCrcRange.End()] == EncodeEntries(h.directory.entries)
    ensures DirectoryCrcRange.start == DirectoryOffset && DirectoryCrcRange.length == EntrySize * EntryCount
  {
  }

  /** DirectoryCrcLocation is exactly the DirCRC field. */
  lemma DirectoryCrcLocationIsDirCrc(h: Header)
    ensures EncodeHeader(h)[DirectoryCrcLocation.start..DirectoryCrcLocation.End()] == [h.dirCrc]
  {
  }

  /** VpdCrcRange holds SingleByte, DirCRC and the VPD, and ends where the
      Crc field begins. */
  lemma VpdCrcRangeCovers(h: Header)
    ensures EncodeHeader(h)[VpdCrcRange.start..VpdCrcRange.End()] == [h.singleByte, h.dirCrc] + h.vpd
    ensures VpdCrcRange.End() == CrcField.start
  {
    var s := EncodeHeader(h);
    assert s[VpdCrcRange.start..VpdCrcRange.End()] == [s[116], s[117]] + s[VpdOffset..CrcOffset];
  }

  /** How the named ranges sit in the header: all inside it, the stored
      directory checksum outside the bytes it covers but inside the VPD
      window, and the Crc field outside the VPD window. */
  lemma RangeLayout()
    ensures DirectoryCrcRange.Within(HeaderRange) && DirectoryCrcLocation.Within(HeaderRange)
    ensures VpdCrcRange.Within(HeaderRange) && CrcField.Within(HeaderRange)
    ensures DirectoryCrcLocation.DisjointFrom(DirectoryCrcRange)
    ensures CrcField.DisjointFrom(VpdCrcRange)
    ensures DirectoryCrcLocation.Within(VpdCrcRange)
  {
  }
}
