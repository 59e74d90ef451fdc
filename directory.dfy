/** The directory entries and the fixed 256-byte header of the NVRAM image,
    with the big-endian codec that reads and writes the header field by
    field, in declaration order and without padding. */
module Directory {
  import opened Endian
  import opened Errors

  // ---------------------------------------------------------------------
  // TypeSize: one 32-bit word, type in the top 8 bits, size in the low 24.

  type TypeSize = bv32

  /** The low 24 bits. */
  function Size(t: TypeSize): (s: bv32)
    ensures s < 0x100_0000
  {
    t & 0x00FF_FFFF
  }

  /** The top 8 bits. */
  function Type(t: TypeSize): (ty: bv32)
    ensures ty < 0x100
  {
    (t & 0xFF00_0000) >> 24
  }

  /** Type and size together make up the whole word. */
  lemma TypeSizeSplit(t: TypeSize)
    ensures Type(t) * 0x100_0000 + Size(t) == t
  {
  }

  /** SetSize panics unless the top byte of the new size is zero. */
  predicate SizeFits(n: bv32)
  {
    (n & 0xFF00_0000) >> 24 == 0
  }

  /** Every length below 2^24 passes the SetSize guard. */
  lemma SmallSizeFits(n: nat)
    requires n < 0x100_0000
    ensures SizeFits(n as bv32)
  {
    SmallWord(n);
    WordSizeFits(n as bv32);
  }

  lemma SmallWord(n: nat)
    requires n < 0x100_0000
    ensures n as bv32 < 0x100_0000
  {
  }

  lemma WordSizeFits(b: bv32)
    requires b < 0x100_0000
    ensures SizeFits(b)
  {
  }

  /** SetSize: replaces the low 24 bits and keeps the type. */
  function SetSize(t: TypeSize, n: bv32): (r: TypeSize)
    requires SizeFits(n)
    ensures Size(r) == n
    ensures Type(r) == Type(t)
  {
    (t & 0xFF00_0000) | n
  }

  /** SetType: replaces the top 8 bits and keeps the size. */
  function SetType(t: TypeSize, ty: bv8): (r: TypeSize)
    ensures Type(r) == ty as bv32
    ensures Size(r) == Size(t)
  {
    (t & 0x00FF_FFFF) | ((ty as bv32) << 24)
  }

  // ---------------------------------------------------------------------
  // The header record.

  datatype Entry = Entry(padding: bv32, typeSize: TypeSize, offset: bv32)

  const EntryCount: nat := 8

  /** The fixed-length array of entries of a directory. */
  type EntryTable = s: seq<Entry> | |s| == EntryCount
    witness [Entry(0, 0, 0), Entry(0, 0, 0), Entry(0, 0, 0), Entry(0, 0, 0),
             Entry(0, 0, 0), Entry(0, 0, 0), Entry(0, 0, 0), Entry(0, 0, 0)]

  datatype Directory = Directory(entries: EntryTable)

  /** The four reserved words after the magic number, kept verbatim. */
  type ReservedWords = s: seq<bv32> | |s| == 4 witness [0, 0, 0, 0]

  const VpdLength: nat := 134

  /** The embedded vendor product data. */
  type VpdBlock = s: seq<byte> | |s| == VpdLength witness seq(134, _ => 0)

  datatype Header = Header(
    magic: bv32,
    data: ReservedWords,
    directory: Directory,
    singleByte: byte,
    dirCrc: byte,
    vpd: VpdBlock,
    crc: bv32)

  /** The header of a zero-initialised image. */
  function ZeroHeader(): Header
  {
    Header(0, [0, 0, 0, 0],
           Directory([Entry(0, 0, 0), Entry(0, 0, 0), Entry(0, 0, 0), Entry(0, 0, 0),
                      Entry(0, 0, 0), Entry(0, 0, 0), Entry(0, 0, 0), Entry(0, 0, 0)]),
           0, 0, seq(134, _ => 0), 0)
  }

  // ---------------------------------------------------------------------
  // Byte offsets of the fields in the encoded header.

  const HeaderSize: nat := 256
  const ReservedOffset: nat := 4
  const DirectoryOffset: nat := 20
  const EntrySize: nat := 12
  const SingleByteOffset: nat := 116
  const DirCrcOffset: nat := 117
  const VpdOffset: nat := 118
  const CrcOffset: nat := 252

  // ---------------------------------------------------------------------
  // Encoding.

  function EncodeWords(ws: seq<bv32>): (s: seq<byte>)
    ensures |s| == 4 * |ws|
  {
    if ws == [] then [] else BigEndian(ws[0]) + EncodeWords(ws[1..])
  }

  function EncodeEntry(e: Entry): (s: seq<byte>)
    ensures |s| == EntrySize
  {
    BigEndian(e.padding) + BigEndian(e.typeSize) + BigEndian(e.offset)
  }

  function EncodeEntries(es: seq<Entry>): (s: seq<byte>)
    ensures |s| == EntrySize * |es|
  {
    if es == [] then [] else EncodeEntry(es[0]) + EncodeEntries(es[1..])
  }

  /** The 256 bytes of the header: every field big-endian, in declaration
      order, with no padding. */
  function EncodeHeader(h: Header): (s: seq<byte>)
    ensures |s| == HeaderSize
    ensures s[..ReservedOffset] == BigEndian(h.magic)
    ensures s[ReservedOffset..DirectoryOffset] == EncodeWords(h.data)
    ensures s[DirectoryOffset..SingleByteOffset] == EncodeEntries(h.directory.entries)
    ensures s[SingleByteOffset] == h.singleByte
    ensures s[DirCrcOffset] == h.dirCrc
    ensures s[VpdOffset..CrcOffset] == h.vpd
    ensures s[CrcOffset..] == BigEndian(h.crc)
  {
    var s := BigEndian(h.magic) + EncodeWords(h.data) + EncodeEntries(h.directory.entries)
             + [h.singleByte, h.dirCrc] + h.vpd + BigEndian(h.crc);
    assert s[..ReservedOffset] == BigEndian(h.magic);
    assert s[ReservedOffset..DirectoryOffset] == EncodeWords(h.data);
    assert s[DirectoryOffset..SingleByteOffset] == EncodeEntries(h.directory.entries);
    assert s[VpdOffset..CrcOffset] == h.vpd;
    assert s[CrcOffset..] == BigEndian(h.crc);
    s
  }

  // ---------------------------------------------------------------------
  // Decoding.

  function DecodeWords(s: seq<byte>): (ws: seq<bv32>)
    requires |s| % 4 == 0
    ensures |ws| == |s| / 4
    ensures EncodeWords(ws) == s
  {
    if s == [] then [] else [FromBigEndian(s[..4])] + DecodeWords(s[4..])
  }

  function DecodeEntry(s: seq<byte>): (e: Entry)
    requires |s| == EntrySize
    ensures EncodeEntry(e) == s
  {
    var e := Entry(FromBigEndian(s[..4]), FromBigEndian(s[4..8]), FromBigEndian(s[8..]));
    assert s == s[..4] + s[4..8] + s[8..];
    e
  }

  function DecodeEntries(s: seq<byte>): (es: seq<Entry>)
    requires |s| % EntrySize == 0
    ensures |es| == |s| / EntrySize
    ensures EncodeEntries(es) == s
  {
    if s == [] then [] else [DecodeEntry(s[..EntrySize])] + DecodeEntries(s[EntrySize..])
  }

  /** The first 256 bytes of `s` cut at the field boundaries. */
  lemma SplitHeaderBytes(s: seq<byte>)
    requires |s| >= HeaderSize
    ensures s[..HeaderSize] == s[..4] + s[4..20] + s[20..116] + [s[116], s[117]] + s[118..252] + s[252..256]
  {
  }

  /** The header whose fields are read from the first 256 bytes of `s`. */
  function HeaderFields(s: seq<byte>): (h: Header)
    requires |s| >= HeaderSize
    ensures EncodeHeader(h) == s[..HeaderSize]
  {
    var magic := FromBigEndian(s[..4]);
    var data := DecodeWords(s[4..20]);
    var entries := DecodeEntries(s[20..116]);
    var vpd := s[118..252];
    var crc := FromBigEndian(s[252..256]);
    SplitHeaderBytes(s);
    assert EncodeHeader(Header(magic, data, Directory(entries), s[116], s[117], vpd, crc)) ==
      BigEndian(magic) + EncodeWords(data) + EncodeEntries(entries) + [s[116], s[117]] + vpd + BigEndian(crc);
    Header(magic, data, Directory(entries), s[116], s[117], vpd, crc)
  }

  /** Header.FromReader: the header held in the first 256 bytes, or
      ShortHeader when fewer are available. */
  function DecodeHeader(s: seq<byte>): (r: Result<Header>)
    ensures r.Err? <==> |s| < HeaderSize
    ensures r.Err? ==> r.error == ShortHeader
    ensures r.Ok? ==> EncodeHeader(r.value) == s[..HeaderSize]
  {
    if |s| < HeaderSize then Err(ShortHeader) else Ok(HeaderFields(s))
  }

  // ---------------------------------------------------------------------
  // Round trip and layout.

  lemma {:induction false} EncodeWordsInjective(a: seq<bv32>, b: seq<bv32>)
    requires EncodeWords(a) == EncodeWords(b)
    ensures a == b
  {
    if a != [] {
      var ea, eb := EncodeWords(a), EncodeWords(b);
      assert ea[..4] == BigEndian(a[0]) && ea[4..] == EncodeWords(a[1..]);
      assert eb[..4] == BigEndian(b[0]) && eb[4..] == EncodeWords(b[1..]);
      BigEndianInjective(a[0], b[0]);
      EncodeWordsInjective(a[1..], b[1..]);
      assert a == [a[0]] + a[1..] && b == [b[0]] + b[1..];
    }
  }

  lemma EncodeEntryInjective(a: Entry, b: Entry)
    requires EncodeEntry(a) == EncodeEntry(b)
    ensures a == b
  {
    var ea, eb := EncodeEntry(a), EncodeEntry(b);
    assert ea[..4] == BigEndian(a.padding) && ea[4..8] == BigEndian(a.typeSize) && ea[8..] == BigEndian(a.offset);
    assert eb[..4] == BigEndian(b.padding) && eb[4..8] == BigEndian(b.typeSize) && eb[8..] == BigEndian(b.offset);
    BigEndianInjective(a.padding, b.padding);
    BigEndianInjective(a.typeSize, b.typeSize);
    BigEndianInjective(a.offset, b.offset);
  }

  lemma {:induction false} EncodeEntriesInjective(a: seq<Entry>, b: seq<Entry>)
    requires EncodeEntries(a) == EncodeEntries(b)
    ensures a == b
  {
    if a != [] {
      var ea, eb := EncodeEntries(a), EncodeEntries(b);
      assert ea[..EntrySize] == EncodeEntry(a[0]) && ea[EntrySize..] == EncodeEntries(a[1..]);
      assert eb[..EntrySize] == EncodeEntry(b[0]) && eb[EntrySize..] == EncodeEntries(b[1..]);
      EncodeEntryInjective(a[0], b[0]);
      EncodeEntriesInjective(a[1..], b[1..]);
      assert a == [a[0]] + a[1..] && b == [b[0]] + b[1..];
    }
  }

  /** Two headers with the same bytes are the same header. */
  lemma EncodeHeaderInjective(g: Header, h: Header)
    requires EncodeHeader(g) == EncodeHeader(h)
    ensures g == h
  {
    BigEndianInjective(g.magic, h.magic);
    EncodeWordsInjective(g.data, h.data);
    EncodeEntriesInjective(g.directory.entries, h.directory.entries);
    BigEndianInjective(g.crc, h.crc);
  }

  /** Encoding a header and decoding the bytes, whatever follows them,
      gives the header back. */
  lemma DecodeEncodeHeader(h: Header, rest: seq<byte>)
    ensures DecodeHeader(EncodeHeader(h) + rest) == Ok(h)
  {
    var s := EncodeHeader(h) + rest;
    assert s[..HeaderSize] == EncodeHeader(h);
    EncodeHeaderInjective(DecodeHeader(s).value, h);
  }

  /** Entry k of a list is encoded at bytes [12k, 12k + 12). */
  lemma {:induction false} EntryBytes(es: seq<Entry>, k: nat)
    requires k < |es|
    ensures EncodeEntries(es)[EntrySize * k..EntrySize * k + EntrySize] == EncodeEntry(es[k])
  {
    if k > 0 {
      EntryBytes(es[1..], k - 1);
      var e := EncodeEntries(es);
      assert e == EncodeEntry(es[0]) + EncodeEntries(es[1..]);
      assert e[EntrySize * k..EntrySize * k + EntrySize]
          == EncodeEntries(es[1..])[EntrySize * (k - 1)..EntrySize * (k - 1) + EntrySize];
    }
  }

  /** Entry k occupies header bytes [20 + 12k, 32 + 12k); its TypeSize word
      is big-endian at 24 + 12k and its offset at 28 + 12k. */
  lemma EntryLayout(h: Header, k: nat)
    requires k < EntryCount
    ensures var at := DirectoryOffset + EntrySize * k;
      EncodeHeader(h)[at..at + EntrySize] == EncodeEntry(h.directory.entries[k])
    ensures EncodeEntry(h.directory.entries[k])[4..8] == BigEndian(h.directory.entries[k].typeSize)
    ensures EncodeEntry(h.directory.entries[k])[8..12] == BigEndian(h.directory.entries[k].offset)
  {
    var s, at := EncodeHeader(h), DirectoryOffset + EntrySize * k;
    EntryBytes(h.directory.entries, k);
    SliceOfSlice(s, DirectoryOffset, SingleByteOffset, at, at + EntrySize);
  }
}
