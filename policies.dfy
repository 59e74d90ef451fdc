/** The checksum and installation policies of the tool, as functions on
    image values: what each check decides and what each setter leaves
    behind, the order the commands run them in, and what that order
    guarantees. The methods that carry them out on an NVRAM object are in
    module Tool. */
module Policies {
  import opened Bits
  import opened Endian
  import opened Errors
  import opened Crc
  import opened Directory
  import opened NvRange
  import opened Nvram

  // ---------------------------------------------------------------------
  // Directory checksum: one byte, Crc8 of the 96 directory bytes, stored
  // in DirCRC.

  /** The value DirCRC should hold. */
  function DirectoryCrc(h: Header): byte
  {
    Crc8(EncodeEntries(h.directory.entries))
  }

  /** directoryChecksum.check. */
  function DirectoryCheck(img: Image): Outcome
  {
    if img.header.dirCrc == DirectoryCrc(img.header) then Pass
    else Fail(DirectoryCrcMismatch(img.header.dirCrc, DirectoryCrc(img.header)))
  }

  /** directoryChecksum.set. */
  function DirectorySet(img: Image): Image
  {
    img.(header := img.header.(dirCrc := DirectoryCrc(img.header)))
  }

  /** The directory check passes exactly when the directory bytes and the
      stored checksum byte add up to zero in 8-bit arithmetic. */
  lemma DirectoryCheckMeaning(img: Image)
    ensures DirectoryCheck(img).Pass? <==>
      Sum8(EncodeEntries(img.header.directory.entries)) + img.header.dirCrc == 0
  {
    if Sum8(EncodeEntries(img.header.directory.entries)) + img.header.dirCrc == 0 {
      Crc8Unique(EncodeEntries(img.header.directory.entries), img.header.dirCrc);
    }
  }

  /** After the setter the check passes; running the setter twice leaves
      what running it once left; only DirCRC changes. */
  lemma DirectorySetThenCheck(img: Image)
    ensures DirectoryCheck(DirectorySet(img)) == Pass
    ensures DirectorySet(DirectorySet(img)) == DirectorySet(img)
    ensures DirectorySet(img).data == img.data
    ensures DirectorySet(img).header.(dirCrc := img.header.dirCrc) == img.header
  {
  }

  // ---------------------------------------------------------------------
  // VPD checksum: CRC-32 of SingleByte, DirCRC and the VPD, byte-swapped
  // and stored in Crc.

  /** The bytes the VPD checksum covers. */
  function VpdWindow(h: Header): seq<byte>
  {
    [h.singleByte, h.dirCrc] + h.vpd
  }

  /** The value Crc should hold. */
  function VpdCrc(h: Header): bv32
  {
    Reverse(Crc32(VpdWindow(h)))
  }

  /** vpdChecksum.check. */
  function VpdCheck(img: Image): Outcome
  {
    if img.header.crc == VpdCrc(img.header) then Pass
    else Fail(VpdCrcMismatch(img.header.crc, VpdCrc(img.header)))
  }

  /** vpdChecksum.set. */
  function VpdSet(img: Image): Image
  {
    img.(header := img.header.(crc := VpdCrc(img.header)))
  }

  /** The VPD check passes exactly when the last four header bytes are the
      CRC-32 of the VPD window, least significant byte first. */
  lemma VpdCheckMeaning(img: Image)
    ensures VpdCheck(img).Pass? <==>
      EncodeHeader(img.header)[CrcField.start..CrcField.End()] ==
        LittleEndian(Crc32(EncodeHeader(img.header)[VpdCrcRange.start..VpdCrcRange.End()]))
  {
    VpdCrcRangeCovers(img.header);
    var c := Crc32(VpdWindow(img.header));
    assert EncodeHeader(img.header)[CrcField.start..CrcField.End()] == BigEndian(img.header.crc);
    if BigEndian(img.header.crc) == LittleEndian(c) {
      BigEndianInjective(img.header.crc, Reverse(c));
    }
  }

  /** After the setter the check passes; the setter is idempotent; it
      changes only Crc, so the directory check keeps its verdict. */
  lemma VpdSetThenCheck(img: Image)
    ensures VpdCheck(VpdSet(img)) == Pass
    ensures VpdSet(VpdSet(img)) == VpdSet(img)
    ensures VpdSet(img).data == img.data
    ensures VpdSet(img).header.(crc := img.header.crc) == img.header
    ensures DirectoryCheck(VpdSet(img)) == DirectoryCheck(img)
  {
  }

  /** DirCRC is byte 1 of the VPD window: a header whose DirCRC is changed
      has a different window, so the bytes the VPD CRC covers include the
      directory checksum. */
  lemma DirectoryCrcInVpdWindow(h: Header, b: byte)
    requires b != h.dirCrc
    ensures VpdWindow(h.(dirCrc := b)) != VpdWindow(h)
  {
    assert VpdWindow(h.(dirCrc := b))[1] != VpdWindow(h)[1];
  }

  // ---------------------------------------------------------------------
  // The option-ROM entry and its trailing checksum.

  /** An entry of type 0 with a non-zero size describes the option ROM. */
  predicate IsRomEntry(e: Entry)
  {
    Type(e.typeSize) == 0 && Size(e.typeSize) != 0
  }

  /** The index of the first option-ROM entry, the one every ROM policy
      acts on. */
  function FirstRom(es: seq<Entry>): (k: Option<nat>)
    ensures k.Some? ==> k.value < |es| && IsRomEntry(es[k.value])
    ensures k.Some? ==> forall j :: 0 <= j < k.value ==> !IsRomEntry(es[j])
    ensures k.None? <==> forall j :: 0 <= j < |es| ==> !IsRomEntry(es[j])
  {
    if es == [] then None
    else if IsRomEntry(es[0]) then Some(0)
    else match FirstRom(es[1..])
      case None => None
      case Some(k) => Some(k + 1)
  }

  lemma SizeBound(t: TypeSize)
    ensures Size(t) as int * 4 < 0x400_0000
  {
    LowBitsBound(t);
  }

  lemma NonZeroSize(t: TypeSize)
    ensures Size(t) != 0 ==> Size(t) as int * 4 >= 4
  {
    NonZeroWord(Size(t));
  }

  /** The bytes of the option ROM: from Offset, Size 32-bit words long. */
  function RomRegion(e: Entry): (r: Range)
    ensures r.start == e.offset as int
    ensures r.length < 0x400_0000
    ensures IsRomEntry(e) ==> r.length >= 4
  {
    SizeBound(e.typeSize);
    NonZeroSize(e.typeSize);
    Range(e.offset as int, Size(e.typeSize) as int * 4)
  }

  /** The checksum slot: the last four bytes of the ROM region. */
  function RomSlot(e: Entry): (r: Range)
    requires IsRomEntry(e)
    ensures r.length == 4 && r.End() == RomRegion(e).End() && r.Within(RomRegion(e))
  {
    Range(RomRegion(e).End() - 4, 4)
  }

  /** The uint32 end of the ROM region of the selected entry does not wrap. */
  predicate RomFits(h: Header)
  {
    var es := h.directory.entries;
    FirstRom(es).Some? ==> RomRegion(es[FirstRom(es).value]).NoWrap()
  }

  /** The checksum a ROM image should carry: the byte-swapped CRC-32 of all
      but its last four bytes. */
  function RomCrc(romBytes: seq<byte>): bv32
    requires |romBytes| >= 4
  {
    Reverse(Crc32(romBytes[..|romBytes| - 4]))
  }

  /** The checksum a ROM image carries: its last four bytes, big-endian. */
  function StoredRomCrc(romBytes: seq<byte>): bv32
    requires |romBytes| >= 4
  {
    FromBigEndian(romBytes[|romBytes| - 4..])
  }

  /** romChecksum.check. */
  function RomCheck(img: Image): Outcome
    requires img.Valid() && RomFits(img.header)
  {
    var es := img.header.directory.entries;
    match FirstRom(es)
    case None => Fail(NoRomEntry)
    case Some(k) =>
      match img.GetRange(RomRegion(es[k]))
      case Err(e) => Fail(e)
      case Ok(romBytes) =>
        if RomCrc(romBytes) != StoredRomCrc(romBytes) then
          Fail(RomCrcMismatch(StoredRomCrc(romBytes), RomCrc(romBytes)))
        else Pass
  }

  /** romChecksum.set. */
  function RomSet(img: Image): Result<Image>
    requires img.Valid() && RomFits(img.header)
  {
    var es := img.header.directory.entries;
    match FirstRom(es)
    case None => Err(NoRomEntry)
    case Some(k) =>
      match img.GetRange(RomRegion(es[k]))
      case Err(e) => Err(e)
      case Ok(romBytes) => img.SetRange(RomSlot(es[k]), BigEndian(RomCrc(romBytes)))
  }

  /** A ROM image carries its checksum exactly when its last four bytes
      are the big-endian checksum of the bytes before them. */
  lemma RomCrcCarried(romBytes: seq<byte>)
    requires |romBytes| >= 4
    ensures StoredRomCrc(romBytes) == RomCrc(romBytes) <==>
      romBytes[|romBytes| - 4..] == BigEndian(RomCrc(romBytes))
  {
    if romBytes[|romBytes| - 4..] == BigEndian(RomCrc(romBytes)) {
      BigEndianRoundTrip(RomCrc(romBytes));
    }
  }

  /** The ROM check passes exactly when there is an option-ROM entry whose
      region can be read and carries its checksum. */
  lemma RomCheckPasses(img: Image)
    requires img.Valid() && RomFits(img.header)
    ensures var es := img.header.directory.entries;
      RomCheck(img).Pass? <==>
        && FirstRom(es).Some?
        && img.Readable(RomRegion(es[FirstRom(es).value]))
        && var romBytes := img.GetRange(RomRegion(es[FirstRom(es).value])).value;
           romBytes[|romBytes| - 4..] == BigEndian(RomCrc(romBytes))
  {
    var es := img.header.directory.entries;
    if FirstRom(es).Some? && img.Readable(RomRegion(es[FirstRom(es).value])) {
      RomCrcCarried(img.GetRange(RomRegion(es[FirstRom(es).value])).value);
    }
  }

  /** Whether a slice carries its checksum, read off the whole sequence. */
  lemma CarriedInSlice(s: seq<byte>, i: nat, j: nat, romBytes: seq<byte>)
    requires i + 4 <= j <= |s| && romBytes == s[i..j]
    ensures romBytes[|romBytes| - 4..] == BigEndian(RomCrc(romBytes)) <==>
      s[j - 4..j] == BigEndian(Reverse(Crc32(s[i..j - 4])))
  {
    SliceTail(s, i, j);
    assert romBytes[..|romBytes| - 4] == s[i..j - 4];
    assert romBytes[|romBytes| - 4..] == s[j - 4..j];
  }

  /** The ROM check passes exactly when there is an option-ROM entry whose
      region can be read and whose last four bytes, in the serialised image,
      hold the checksum of the bytes before them. */
  lemma RomCheckMeaning(img: Image)
    requires img.Valid() && RomFits(img.header)
    ensures var es := img.header.directory.entries;
      RomCheck(img).Pass? <==>
        && FirstRom(es).Some?
        && var r := RomRegion(es[FirstRom(es).value]);
           && img.Readable(r)
           && img.Encode()[r.End() - 4..r.End()] == BigEndian(Reverse(Crc32(img.Encode()[r.start..r.End() - 4])))
  {
    RomCheckPasses(img);
    var es := img.header.directory.entries;
    if FirstRom(es).Some? {
      var r := RomRegion(es[FirstRom(es).value]);
      if img.Readable(r) {
        GetRangeEncoded(img, r);
        CarriedInSlice(img.Encode(), r.start, r.End(), img.GetRange(r).value);
      }
    }
  }

  /** The ROM setter succeeds exactly when there is an option-ROM entry
      whose region lies wholly in the data; in particular it fails when the
      region, and so its checksum slot, starts inside the header. On success
      it changes only the four bytes of the slot. */
  lemma RomSetOutcome(img: Image)
    requires img.Valid() && RomFits(img.header)
    ensures var es := img.header.directory.entries;
      FirstRom(es).None? ==> RomSet(img) == Err(NoRomEntry)
    ensures var es := img.header.directory.entries;
      FirstRom(es).Some? ==>
        var r := RomRegion(es[FirstRom(es).value]);
        RomSet(img).Ok? <==> HeaderSize <= r.start && r.End() <= img.TotalSize()
    ensures RomSet(img).Ok? ==>
      && RomSet(img).value.header == img.header
      && |RomSet(img).value.data| == |img.data|
  {
  }

  /** Replacing the last four bytes of a ROM image by its checksum makes it
      carry that checksum. */
  lemma ChecksumWritten(romBytes: seq<byte>)
    requires |romBytes| >= 4
    ensures var written := romBytes[..|romBytes| - 4] + BigEndian(RomCrc(romBytes));
      |written| == |romBytes| && StoredRomCrc(written) == RomCrc(written)
  {
    var crc := RomCrc(romBytes);
    var written := romBytes[..|romBytes| - 4] + BigEndian(crc);
    assert written[..|written| - 4] == romBytes[..|romBytes| - 4];
    assert written[|written| - 4..] == BigEndian(crc);
    BigEndianRoundTrip(crc);
  }

  /** A successful ROM setter writes the checksum of the region into its
      last four bytes. */
  lemma RomSetWrites(img: Image)
    requires img.Valid() && RomFits(img.header)
    requires RomSet(img).Ok?
    ensures var es := img.header.directory.entries;
      var r := RomRegion(es[FirstRom(es).value]);
      && HeaderSize <= r.start && r.End() <= img.TotalSize()
      && RomSet(img) == img.SetRange(Range(r.End() - 4, 4), BigEndian(RomCrc(img.GetRange(r).value)))
  {
    RomSetOutcome(img);
  }

  /** The ROM check passes when the region of the first option-ROM entry
      reads as bytes that carry their checksum. */
  lemma RomCheckPassesOn(img: Image, romBytes: seq<byte>)
    requires img.Valid() && RomFits(img.header)
    requires FirstRom(img.header.directory.entries).Some?
    requires img.GetRange(RomRegion(img.header.directory.entries[FirstRom(img.header.directory.entries).value])) == Ok(romBytes)
    requires |romBytes| >= 4 && StoredRomCrc(romBytes) == RomCrc(romBytes)
    ensures RomCheck(img) == Pass
  {
  }

  /** An image with the same header whose ROM region reads as the old
      bytes with the checksum in the last four passes the ROM check. */
  lemma ChecksumInPlace(img: Image, out: Image, romBytes: seq<byte>)
    requires img.Valid() && RomFits(img.header)
    requires FirstRom(img.header.directory.entries).Some?
    requires var es := img.header.directory.entries;
      img.GetRange(RomRegion(es[FirstRom(es).value])) == Ok(romBytes)
    requires out.Valid() && out.header == img.header
    requires var es := img.header.directory.entries;
      out.GetRange(RomRegion(es[FirstRom(es).value])) == Ok(romBytes[..|romBytes| - 4] + BigEndian(RomCrc(romBytes)))
    ensures RomFits(out.header) && RomCheck(out) == Pass
  {
    ChecksumWritten(romBytes);
    RomCheckPassesOn(out, romBytes[..|romBytes| - 4] + BigEndian(RomCrc(romBytes)));
  }

  /** After the ROM setter the ROM check passes. */
  lemma RomSetThenCheck(img: Image)
    requires img.Valid() && RomFits(img.header)
    requires RomSet(img).Ok?
    ensures RomSet(img).value.Valid() && RomFits(RomSet(img).value.header)
    ensures RomCheck(RomSet(img).value) == Pass
  {
    var es := img.header.directory.entries;
    var r := RomRegion(es[FirstRom(es).value]);
    RomSetWrites(img);
    var romBytes := img.GetRange(r).value;
    WriteTail(img, r, BigEndian(RomCrc(romBytes)));
    ChecksumInPlace(img, RomSet(img).value, romBytes);
  }

  /** Running the ROM setter on its own output changes nothing. */
  lemma RomSetIdempotent(img: Image)
    requires img.Valid() && RomFits(img.header)
    requires RomSet(img).Ok?
    ensures RomSet(img).value.Valid() && RomFits(RomSet(img).value.header)
    ensures RomSet(RomSet(img).value) == RomSet(img)
  {
    RomSetThenCheck(img);
    RomSetOutcome(img);
    var es := img.header.directory.entries;
    var k := FirstRom(es).value;
    var r, slot := RomRegion(es[k]), RomSlot(es[k]);
    var out := RomSet(img).value;
    var newBytes := out.GetRange(r).value;
    assert StoredRomCrc(newBytes) == RomCrc(newBytes);
    GetRangeWithin(out, r, slot);
    assert out.GetRange(slot).value == newBytes[r.length - 4..];
    SetRangeUnchanged(out, slot);
  }

  // ---------------------------------------------------------------------
  // Installing a ROM image.

  /** What romBinary.set needs so that neither the uint32 end of the target
      range wraps nor SetSize panics. */
  predicate InstallFits(h: Header, romLength: nat)
  {
    var es := h.directory.entries;
    && romLength < 0x100_0000
    && (FirstRom(es).Some? ==> es[FirstRom(es).value].offset as int + romLength < 0x1_0000_0000)
  }

  /** romBinary.set: copies the ROM image into the data at the offset of
      the option-ROM entry, then records its length in that entry's size. */
  function Install(img: Image, rom: seq<byte>): Result<Image>
    requires img.Valid() && InstallFits(img.header, |rom|)
  {
    var es := img.header.directory.entries;
    match FirstRom(es)
    case None => Err(NoRomEntry)
    case Some(k) =>
      var e := es[k];
      match img.SetRange(Range(e.offset as int, |rom|), rom)
      case Err(err) => Err(err)
      case Ok(written) =>
        SmallSizeFits(|rom|);
        var installed := e.(typeSize := SetSize(e.typeSize, |rom| as bv32));
        Ok(written.(header := written.header.(directory := Directory(es[k := installed]))))
  }

  /** Installation succeeds exactly when there is an option-ROM entry whose
      offset lies in the data with room for the image after it. */
  lemma InstallOutcome(img: Image, rom: seq<byte>)
    requires img.Valid() && InstallFits(img.header, |rom|)
    ensures var es := img.header.directory.entries;
      FirstRom(es).None? ==> Install(img, rom) == Err(NoRomEntry)
    ensures var es := img.header.directory.entries;
      FirstRom(es).Some? ==>
        var at := es[FirstRom(es).value].offset as int;
        (Install(img, rom).Ok? <==> HeaderSize <= at && at + |rom| <= img.TotalSize())
  {
  }

  /** On success the image sits at the entry's offset in the data and every
      other data byte is kept. */
  lemma InstallData(img: Image, rom: seq<byte>)
    requires img.Valid() && InstallFits(img.header, |rom|)
    requires Install(img, rom).Ok?
    ensures var es := img.header.directory.entries;
      var o := es[FirstRom(es).value].offset as int - HeaderSize;
      var out := Install(img, rom).value;
      && 0 <= o && o + |rom| <= |img.data|
      && |out.data| == |img.data|
      && out.data[o..o + |rom|] == rom
      && (forall i :: 0 <= i < |img.data| && !(o <= i < o + |rom|) ==> out.data[i] == img.data[i])
  {
    var es := img.header.directory.entries;
    var e := es[FirstRom(es).value];
    var w := img.SetRange(Range(e.offset as int, |rom|), rom);
    assert Install(img, rom).value.data == w.value.data;
  }

  /** On success the option-ROM entry keeps its type, offset and padding and
      takes the image's length as its size; every other entry and every
      other header field is kept. */
  lemma InstallHeader(img: Image, rom: seq<byte>)
    requires img.Valid() && InstallFits(img.header, |rom|)
    requires Install(img, rom).Ok?
    ensures var es := img.header.directory.entries;
      var k := FirstRom(es).value;
      var out := Install(img, rom).value;
      var outEs := out.header.directory.entries;
      && outEs[k].padding == es[k].padding
      && outEs[k].offset == es[k].offset
      && Type(outEs[k].typeSize) == Type(es[k].typeSize)
      && Size(outEs[k].typeSize) == |rom| as bv32
      && (forall j :: 0 <= j < EntryCount && j != k ==> outEs[j] == es[j])
      && out.header.(directory := img.header.directory) == img.header
  {
    var es := img.header.directory.entries;
    var k := FirstRom(es).value;
    var e := es[k];
    var w := img.SetRange(Range(e.offset as int, |rom|), rom);
    SmallSizeFits(|rom|);
    var installed := e.(typeSize := SetSize(e.typeSize, |rom| as bv32));
    assert Install(img, rom).value.header == w.value.header.(directory := Directory(es[k := installed]));
    assert w.value.header == img.header;
  }

  /** The size field counts 32-bit words for the ROM check but installation
      stores the image's length in bytes: after installing a non-empty image
      the same entry is still the option-ROM entry, and the region the ROM
      policies then use is four times as long as the image size field. */
  lemma InstallRegionLength(img: Image, rom: seq<byte>)
    requires img.Valid() && InstallFits(img.header, |rom|)
    requires Install(img, rom).Ok? && |rom| > 0
    ensures var es := img.header.directory.entries;
      var outEs := Install(img, rom).value.header.directory.entries;
      && FirstRom(outEs) == FirstRom(es)
      && RomRegion(outEs[FirstRom(es).value]) ==
           Range(es[FirstRom(es).value].offset as int, 4 * (|rom| as bv32) as int)
  {
    var es := img.header.directory.entries;
    var outEs := Install(img, rom).value.header.directory.entries;
    var k := FirstRom(es).value;
    InstallHeader(img, rom);
    assert |rom| as bv32 != 0;
    assert IsRomEntry(outEs[k]);
    assert forall j :: 0 <= j < k ==> outEs[j] == es[j];
  }

  // ---------------------------------------------------------------------
  // The policies as a list, and the two orders the commands use.

  datatype Policy = DirectoryChecksum | VpdChecksum | RomChecksum | RomBinary(rom: seq<byte>)

  /** romBinary only implements set; the other three policies also check. */
  predicate Checks(p: Policy)
  {
    !p.RomBinary?
  }

  /** Every policy of the list has a check. */
  predicate AllCheck(ps: seq<Policy>)
  {
    forall i :: 0 <= i < |ps| ==> Checks(ps[i])
  }

  /** What the checks need of the image: no uint32 end wraps. */
  predicate CheckReady(img: Image)
  {
    img.Valid() && RomFits(img.header)
  }

  predicate SetReady(p: Policy, img: Image)
  {
    && img.Valid()
    && (p.RomChecksum? ==> RomFits(img.header))
    && (p.RomBinary? ==> InstallFits(img.header, |p.rom|))
  }

  /** The check of a policy. */
  function Verify(p: Policy, img: Image): Outcome
    requires Checks(p) && CheckReady(img)
  {
    if p.DirectoryChecksum? then DirectoryCheck(img)
    else if p.VpdChecksum? then VpdCheck(img)
    else RomCheck(img)
  }

  /** The setter of a policy. */
  function Apply(p: Policy, img: Image): Result<Image>
    requires SetReady(p, img)
  {
    match p
    case DirectoryChecksum => Ok(DirectorySet(img))
    case VpdChecksum => Ok(VpdSet(img))
    case RomChecksum => RomSet(img)
    case RomBinary(rom) => Install(img, rom)
  }

  /** A first failure of the checks of ps[1..], when ps[0] passes, is a
      first failure of the checks of ps. */
  lemma FirstFailureShift(ps: seq<Policy>, img: Image, res: Outcome)
    requires ps != []
    requires AllCheck(ps) && CheckReady(img)
    requires Verify(ps[0], img).Pass?
    requires res.Fail? ==> exists i :: 0 <= i < |ps[1..]| && Verify(ps[1..][i], img) == res &&
                                       forall j :: 0 <= j < i ==> Verify(ps[1..][j], img).Pass?
    ensures res.Fail? ==> exists i :: 0 <= i < |ps| && Verify(ps[i], img) == res &&
                                      forall j :: 0 <= j < i ==> Verify(ps[j], img).Pass?
  {
    if res.Fail? {
      var i :| 0 <= i < |ps[1..]| && Verify(ps[1..][i], img) == res &&
               forall j :: 0 <= j < i ==> Verify(ps[1..][j], img).Pass?;
      assert Verify(ps[i + 1], img) == res;
      forall j | 0 <= j < i + 1
        ensures Verify(ps[j], img).Pass?
      {
        if j > 0 { assert ps[j] == ps[1..][j - 1]; }
      }
    }
  }

  /** The checks in turn, stopping at the first failure. */
  function CheckAll(ps: seq<Policy>, img: Image): (res: Outcome)
    requires AllCheck(ps) && CheckReady(img)
    ensures res.Pass? <==> forall i :: 0 <= i < |ps| ==> Verify(ps[i], img).Pass?
    ensures res.Fail? ==> exists i :: 0 <= i < |ps| && Verify(ps[i], img) == res &&
                                      forall j :: 0 <= j < i ==> Verify(ps[j], img).Pass?
  {
    if ps == [] then Pass
    else match Verify(ps[0], img)
      case Fail(e) => Fail(e)
      case Pass =>
        var rest := CheckAll(ps[1..], img);
        FirstFailureShift(ps, img, rest);
        rest
  }

  /** What the setters need of the image, and keep: the image is valid
      and the offset of every entry of type 0, the type of the option-ROM
      entry, leaves room below 2^32 for the largest region a ROM policy can
      use (2^26 bytes). Entries of other types, an erased one included,
      are not constrained. */
  predicate Ready(img: Image)
  {
    && img.Valid()
    && forall j :: 0 <= j < EntryCount && Type(img.header.directory.entries[j].typeSize) == 0 ==>
         img.header.directory.entries[j].offset as int + 0x400_0000 < 0x1_0000_0000
  }

  /** An image to install is shorter than 2^24 bytes, so that SetSize
      does not panic. */
  predicate Small(p: Policy)
  {
    p.RomBinary? ==> |p.rom| < 0x100_0000
  }

  predicate AllSmall(ps: seq<Policy>)
  {
    forall i :: 0 <= i < |ps| ==> Small(ps[i])
  }

  lemma ReadyPrepares(p: Policy, img: Image)
    requires Ready(img) && Small(p)
    ensures SetReady(p, img) && CheckReady(img)
  {
  }

  /** Every setter keeps the image ready for the next one. */
  lemma ApplyKeepsReady(p: Policy, img: Image)
    requires Ready(img) && Small(p)
    ensures SetReady(p, img)
    ensures Apply(p, img).Ok? ==> Ready(Apply(p, img).value)
  {
    ReadyPrepares(p, img);
    if Apply(p, img).Ok? {
      var out := Apply(p, img).value;
      match p
      case DirectoryChecksum =>
      case VpdChecksum =>
      case RomChecksum =>
        RomSetOutcome(img);
      case RomBinary(rom) =>
        InstallData(img, rom);
        InstallHeader(img, rom);
        var es, outEs := img.header.directory.entries, out.header.directory.entries;
        forall j | 0 <= j < EntryCount
          ensures outEs[j].offset == es[j].offset
          ensures Type(outEs[j].typeSize) == Type(es[j].typeSize)
        {
          if j == FirstRom(es).value {
          }
        }
    }
  }

  /** The setters in turn, stopping at the first failure. */
  function SetAll(ps: seq<Policy>, img: Image): (res: Result<Image>)
    requires Ready(img) && AllSmall(ps)
    ensures res.Ok? ==> Ready(res.value)
    decreases |ps|
  {
    if ps == [] then Ok(img)
    else
      ApplyKeepsReady(ps[0], img);
      match Apply(ps[0], img)
      case Err(e) => Err(e)
      case Ok(next) => SetAll(ps[1..], next)
  }

  /** The checks of the check command. */
  const CheckOrder: seq<Policy> := [DirectoryChecksum, VpdChecksum, RomChecksum]

  /** The setters of the writeOptionRom command. */
  function WriteOrder(rom: seq<byte>): seq<Policy>
  {
    [RomBinary(rom), DirectoryChecksum, VpdChecksum, RomChecksum]
  }

  lemma SetAllCons(p: Policy, rest: seq<Policy>, img: Image)
    requires Ready(img) && Small(p) && AllSmall(rest)
    ensures AllSmall([p] + rest) && SetReady(p, img)
    ensures Apply(p, img).Err? ==> SetAll([p] + rest, img) == Err(Apply(p, img).error)
    ensures Apply(p, img).Ok? ==>
      Ready(Apply(p, img).value) && SetAll([p] + rest, img) == SetAll(rest, Apply(p, img).value)
  {
    assert ([p] + rest)[1..] == rest;
    assert forall i :: 0 < i < |[p] + rest| ==> ([p] + rest)[i] == rest[i - 1];
    ApplyKeepsReady(p, img);
  }

  /** The last two setters of the writeOptionRom command. */
  lemma LastTwoSteps(b: Image)
    requires Ready(b)
    ensures AllSmall([VpdChecksum, RomChecksum])
    ensures Ready(VpdSet(b)) && RomFits(VpdSet(b).header)
    ensures SetAll([VpdChecksum, RomChecksum], b) == RomSet(VpdSet(b))
  {
    SetAllCons(VpdChecksum, [RomChecksum], b);
    var c := VpdSet(b);
    assert Apply(VpdChecksum, b) == Ok(c);
    SetAllCons(RomChecksum, [], c);
    assert Apply(RomChecksum, c) == RomSet(c);
    assert [RomChecksum] + [] == [RomChecksum];
  }

  /** The directory setter, followed by the last two. */
  lemma LastThreeSteps(a: Image)
    requires Ready(a)
    ensures AllSmall([DirectoryChecksum, VpdChecksum, RomChecksum]) && Ready(DirectorySet(a))
    ensures SetAll([DirectoryChecksum, VpdChecksum, RomChecksum], a) ==
      SetAll([VpdChecksum, RomChecksum], DirectorySet(a))
  {
    LastTwoSteps(a);
    SetAllCons(DirectoryChecksum, [VpdChecksum, RomChecksum], a);
    assert Apply(DirectoryChecksum, a) == Ok(DirectorySet(a));
  }

  /** The installer, first of the writeOptionRom setters. */
  lemma FirstStep(img: Image, rom: seq<byte>)
    requires Ready(img) && |rom| < 0x100_0000
    ensures AllSmall(WriteOrder(rom)) && InstallFits(img.header, |rom|)
    ensures Install(img, rom).Err? ==> SetAll(WriteOrder(rom), img).Err?
    ensures Install(img, rom).Ok? ==>
      && Ready(Install(img, rom).value)
      && SetAll(WriteOrder(rom), img) == SetAll([DirectoryChecksum, VpdChecksum, RomChecksum], Install(img, rom).value)
  {
    assert WriteOrder(rom) == [RomBinary(rom)] + [DirectoryChecksum, VpdChecksum, RomChecksum];
    LastThreeSteps(img);
    SetAllCons(RomBinary(rom), [DirectoryChecksum, VpdChecksum, RomChecksum], img);
    assert Apply(RomBinary(rom), img) == Install(img, rom);
  }

  /** What the writeOptionRom setters compute, when they all succeed. */
  lemma WriteOrderSteps(img: Image, rom: seq<byte>)
    requires Ready(img) && |rom| < 0x100_0000
    requires AllSmall(WriteOrder(rom)) && SetAll(WriteOrder(rom), img).Ok?
    ensures InstallFits(img.header, |rom|) && Install(img, rom).Ok?
    ensures var c := VpdSet(DirectorySet(Install(img, rom).value));
      && Ready(c) && RomFits(c.header) && RomSet(c).Ok?
      && SetAll(WriteOrder(rom), img) == RomSet(c)
  {
    FirstStep(img, rom);
    LastThreeSteps(Install(img, rom).value);
    LastTwoSteps(DirectorySet(Install(img, rom).value));
  }

  lemma CheckAllCons(p: Policy, rest: seq<Policy>, img: Image)
    requires Checks(p) && AllCheck(rest) && CheckReady(img)
    ensures AllCheck([p] + rest)
    ensures Verify(p, img).Pass? ==> CheckAll([p] + rest, img) == CheckAll(rest, img)
  {
    assert ([p] + rest)[1..] == rest;
    assert forall i :: 0 < i < |[p] + rest| ==> ([p] + rest)[i] == rest[i - 1];
  }

  /** The checks of the check command all pass when each passes. */
  lemma CheckOrderPasses(img: Image)
    requires CheckReady(img)
    requires DirectoryCheck(img) == Pass && VpdCheck(img) == Pass && RomCheck(img) == Pass
    ensures AllCheck(CheckOrder) && CheckAll(CheckOrder, img) == Pass
  {
    assert Verify(RomChecksum, img) == Pass;
    CheckAllCons(RomChecksum, [], img);
    assert [RomChecksum] + [] == [RomChecksum];
    assert Verify(VpdChecksum, img) == Pass;
    CheckAllCons(VpdChecksum, [RomChecksum], img);
    assert Verify(DirectoryChecksum, img) == Pass;
    CheckAllCons(DirectoryChecksum, [VpdChecksum, RomChecksum], img);
    assert CheckOrder == [DirectoryChecksum] + [VpdChecksum, RomChecksum];
  }

  /** The checks of the check command pass exactly when each passes. */
  lemma CheckOrderMeaning(img: Image)
    requires CheckReady(img)
    ensures AllCheck(CheckOrder)
    ensures CheckAll(CheckOrder, img).Pass? <==>
      DirectoryCheck(img).Pass? && VpdCheck(img).Pass? && RomCheck(img).Pass?
  {
    assert forall i :: 0 <= i < |CheckOrder| ==> Checks(CheckOrder[i]);
    assert Verify(CheckOrder[0], img) == DirectoryCheck(img);
    assert Verify(CheckOrder[1], img) == VpdCheck(img);
    assert Verify(CheckOrder[2], img) == RomCheck(img);
  }

  /** The image the writeOptionRom command produces passes every check of
      the check command. */
  lemma WriteThenCheck(img: Image, rom: seq<byte>)
    requires Ready(img) && |rom| < 0x100_0000
    ensures AllSmall(WriteOrder(rom))
    ensures SetAll(WriteOrder(rom), img).Ok? ==>
      var out := SetAll(WriteOrder(rom), img).value;
      AllCheck(CheckOrder) && CheckReady(out) && CheckAll(CheckOrder, out) == Pass
  {
    assert AllSmall(WriteOrder(rom));
    if SetAll(WriteOrder(rom), img).Ok? {
      WriteOrderSteps(img, rom);
      var a := Install(img, rom).value;
      var b := DirectorySet(a);
      var c := VpdSet(b);
      var d := RomSet(c).value;
      DirectorySetThenCheck(a);
      VpdSetThenCheck(b);
      RomSetOutcome(c);
      RomSetThenCheck(c);
      assert DirectoryCheck(d) == DirectoryCheck(c) == Pass;
      assert VpdCheck(d) == VpdCheck(c) == Pass;
      CheckOrderPasses(d);
    }
  }
}
