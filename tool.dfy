/** The tool's policies carried out on an NVRAM object, step by step as the
    command does them, each proved against its policy function in module
    Policies; and the two commands, from the bytes read to the outcome or
    the bytes written. */
module Tool {
  import opened Endian
  import opened Errors
  import opened Crc
  import opened Directory
  import opened NvRange
  import opened Nvram
  import opened Policies

  /** The three fixed header ranges the checksum policies read can always
      be read, and hold the fields they are named after. */
  lemma FixedRanges(img: Image)
    requires img.Valid()
    ensures img.GetRange(DirectoryCrcRange) == Ok(EncodeEntries(img.header.directory.entries))
    ensures img.GetRange(DirectoryCrcLocation) == Ok([img.header.dirCrc])
    ensures img.GetRange(VpdCrcRange) == Ok(VpdWindow(img.header))
  {
    DirectoryCrcRangeIsDirectory(img.header);
    DirectoryCrcLocationIsDirCrc(img.header);
    VpdCrcRangeCovers(img.header);
  }

  /** An entry that is an option-ROM entry after none that is, is the first. */
  lemma FirstRomAt(es: seq<Entry>, i: nat)
    requires i < |es| && IsRomEntry(es[i])
    requires forall j :: 0 <= j < i ==> !IsRomEntry(es[j])
    ensures FirstRom(es) == Some(i)
  {
  }

  /** What the ROM check decides once the first option-ROM entry and the
      bytes of its region are known. */
  lemma RomCheckAt(img: Image, k: nat, romBytes: seq<byte>)
    requires CheckReady(img) && FirstRom(img.header.directory.entries) == Some(k)
    requires img.GetRange(RomRegion(img.header.directory.entries[k])) == Ok(romBytes)
    ensures |romBytes| >= 4
    ensures RomCheck(img) ==
      if RomCrc(romBytes) != StoredRomCrc(romBytes) then Fail(RomCrcMismatch(StoredRomCrc(romBytes), RomCrc(romBytes)))
      else Pass
  {
  }

  /** What the ROM setter does once the first option-ROM entry and the
      bytes of its region are known. */
  lemma RomSetAt(img: Image, k: nat, romBytes: seq<byte>)
    requires CheckReady(img) && FirstRom(img.header.directory.entries) == Some(k)
    requires img.GetRange(RomRegion(img.header.directory.entries[k])) == Ok(romBytes)
    ensures |romBytes| >= 4
    ensures RomSet(img) == img.SetRange(RomSlot(img.header.directory.entries[k]), BigEndian(RomCrc(romBytes)))
  {
  }

  // ---------------------------------------------------------------------
  // The directory checksum.

  /** directoryChecksum.check: compares the stored DirCRC byte with the
      Crc8 of the directory bytes. */
  method CheckDirectoryChecksum(n: NVRAM) returns (res: Outcome)
    requires n.Content().Valid()
    ensures res == DirectoryCheck(n.Content())
  {
    FixedRanges(n.Content());
    var directoryBytes := n.GetRange(DirectoryCrcRange).value;
    var oldCrcRaw := n.GetRange(DirectoryCrcLocation).value;
    var oldCrcDir := oldCrcRaw[0];
    var newCrcDir := ComputeCrc8(directoryBytes);
    if oldCrcDir != newCrcDir {
      return Fail(DirectoryCrcMismatch(oldCrcDir, newCrcDir));
    }
    return Pass;
  }

  /** directoryChecksum.set: stores the Crc8 of the directory bytes in
      DirCRC. */
  method SetDirectoryChecksum(n: NVRAM)
    requires n.Content().Valid()
    modifies n
    ensures n.Content() == DirectorySet(old(n.Content()))
  {
    FixedRanges(n.Content());
    var directoryBytes := n.GetRange(DirectoryCrcRange).value;
    var newCrcDir := ComputeCrc8(directoryBytes);
    n.header := n.header.(dirCrc := newCrcDir);
  }

  // ---------------------------------------------------------------------
  // The VPD checksum.

  /** vpdChecksum.check: compares Crc with the byte-swapped CRC-32 of the
      VPD window. */
  method CheckVpdChecksum(n: NVRAM) returns (res: Outcome)
    requires n.Content().Valid()
    ensures res == VpdCheck(n.Content())
  {
    FixedRanges(n.Content());
    var vpdBytes := n.GetRange(VpdCrcRange).value;
    var crc := ComputeCrc32(vpdBytes);
    if n.header.crc != Reverse(crc) {
      return Fail(VpdCrcMismatch(n.header.crc, Reverse(crc)));
    }
    return Pass;
  }

  /** vpdChecksum.set: stores the byte-swapped CRC-32 of the VPD window in
      Crc. */
  method SetVpdChecksum(n: NVRAM)
    requires n.Content().Valid()
    modifies n
    ensures n.Content() == VpdSet(old(n.Content()))
  {
    FixedRanges(n.Content());
    var vpdBytes := n.GetRange(VpdCrcRange).value;
    var crc := ComputeCrc32(vpdBytes);
    n.header := n.header.(crc := Reverse(crc));
  }

  // ---------------------------------------------------------------------
  // The option-ROM checksum and the installer.

  /** romChecksum.check, from the first option-ROM entry on: compares the
      last four bytes of the entry's region with the checksum of the rest. */
  method CheckRomChecksumAt(n: NVRAM, k: nat) returns (res: Outcome)
    requires CheckReady(n.Content()) && FirstRom(n.header.directory.entries) == Some(k)
    ensures res == RomCheck(n.Content())
  {
    var entry := n.header.directory.entries[k];
    var rangeRom := RomRegion(entry);
    var romBytes := n.GetRange(rangeRom);
    if romBytes.Err? {
      return Fail(romBytes.error);
    }
    var bytes := romBytes.value;
    RomCheckAt(n.Content(), k, bytes);
    var newCrc := ComputeCrc32(bytes[..rangeRom.length - 4]);
    var oldCrc := FromBigEndian(bytes[rangeRom.length - 4..]);
    if Reverse(newCrc) != oldCrc {
      return Fail(RomCrcMismatch(oldCrc, Reverse(newCrc)));
    }
    return Pass;
  }

  /** romChecksum.check: finds the first option-ROM entry and compares the
      last four bytes of its region with the checksum of the rest. */
  method CheckRomChecksum(n: NVRAM) returns (res: Outcome)
    requires CheckReady(n.Content())
    ensures res == RomCheck(n.Content())
  {
    var es := n.header.directory.entries;
    var i := 0;
    while i < |es|
      invariant 0 <= i <= |es|
      invariant forall j :: 0 <= j < i ==> !IsRomEntry(es[j])
    {
      if Type(es[i].typeSize) == 0 && Size(es[i].typeSize) != 0 {
        FirstRomAt(es, i);
        res := CheckRomChecksumAt(n, i);
        return;
      }
      i := i + 1;
    }
    return Fail(NoRomEntry);
  }

  /** romChecksum.set, from the first option-ROM entry on: writes the
      checksum of the entry's region into the region's last four bytes. */
  method SetRomChecksumAt(n: NVRAM, k: nat) returns (res: Outcome)
    requires CheckReady(n.Content()) && FirstRom(n.header.directory.entries) == Some(k)
    modifies n
    ensures match RomSet(old(n.Content()))
            case Ok(img) => res == Pass && n.Content() == img
            case Err(e) => res == Fail(e) && n.Content() == old(n.Content())
  {
    var entry := n.header.directory.entries[k];
    var rangeRom := RomRegion(entry);
    var romBytes := n.GetRange(rangeRom);
    if romBytes.Err? {
      return Fail(romBytes.error);
    }
    var bytes := romBytes.value;
    RomSetAt(n.Content(), k, bytes);
    var newCrc := ComputeCrc32(bytes[..rangeRom.length - 4]);
    var rangeRomChecksum := Range(rangeRom.start + rangeRom.length - 4, 4);
    res := n.SetRange(rangeRomChecksum, BigEndian(Reverse(newCrc)));
  }

  /** romChecksum.set: finds the first option-ROM entry and writes the
      checksum of its region into the region's last four bytes. */
  method SetRomChecksum(n: NVRAM) returns (res: Outcome)
    requires CheckReady(n.Content())
    modifies n
    ensures match RomSet(old(n.Content()))
            case Ok(img) => res == Pass && n.Content() == img
            case Err(e) => res == Fail(e) && n.Content() == old(n.Content())
  {
    var es := n.header.directory.entries;
    var i := 0;
    while i < |es|
      invariant 0 <= i <= |es|
      invariant forall j :: 0 <= j < i ==> !IsRomEntry(es[j])
      invariant n.header == old(n.header) && n.data == old(n.data)
    {
      if Type(es[i].typeSize) == 0 && Size(es[i].typeSize) != 0 {
        FirstRomAt(es, i);
        res := SetRomChecksumAt(n, i);
        return;
      }
      i := i + 1;
    }
    return Fail(NoRomEntry);
  }

  /** romBinary.set, from the first option-ROM entry on: copies `rom` to
      the entry's offset and records its length in the entry's size. */
  method WriteRomBinaryAt(n: NVRAM, rom: seq<byte>, index: nat) returns (res: Outcome)
    requires n.Content().Valid() && InstallFits(n.header, |rom|)
    requires FirstRom(n.header.directory.entries) == Some(index)
    modifies n
    ensures match Install(old(n.Content()), rom)
            case Ok(img) => res == Pass && n.Content() == img
            case Err(e) => res == Fail(e) && n.Content() == old(n.Content())
  {
    SmallSizeFits(|rom|);
    var es := n.header.directory.entries;
    var entry := es[index];
    var rangeRom := Range(entry.offset as int, |rom|);
    var err := n.SetRange(rangeRom, rom);
    if err.Fail? {
      return err;
    }
    var installed := entry.(typeSize := SetSize(entry.typeSize, |rom| as bv32));
    n.header := n.header.(directory := Directory(es[index := installed]));
    return Pass;
  }

  /** romBinary.set: copies `rom` to the offset of the first option-ROM
      entry and records its length in the entry's size. */
  method WriteRomBinary(n: NVRAM, rom: seq<byte>) returns (res: Outcome)
    requires n.Content().Valid() && InstallFits(n.header, |rom|)
    modifies n
    ensures match Install(old(n.Content()), rom)
            case Ok(img) => res == Pass && n.Content() == img
            case Err(e) => res == Fail(e) && n.Content() == old(n.Content())
  {
    var es := n.header.directory.entries;
    var index := 0;
    while index < |es|
      invariant 0 <= index <= |es|
      invariant forall j :: 0 <= j < index ==> !IsRomEntry(es[j])
      invariant n.header == old(n.header) && n.data == old(n.data)
    {
      if Type(es[index].typeSize) == 0 && Size(es[index].typeSize) != 0 {
        FirstRomAt(es, index);
        res := WriteRomBinaryAt(n, rom, index);
        return;
      }
      index := index + 1;
    }
    return Fail(NoRomEntry);
  }

  // ---------------------------------------------------------------------
  // The policy lists of the two commands.

  /** Check.check, dispatched on the policy. */
  method RunCheck(p: Policy, n: NVRAM) returns (res: Outcome)
    requires Checks(p) && CheckReady(n.Content())
    ensures res == Verify(p, n.Content())
  {
    match p
    case DirectoryChecksum => res := CheckDirectoryChecksum(n);
    case VpdChecksum => res := CheckVpdChecksum(n);
    case RomChecksum => res := CheckRomChecksum(n);
  }

  /** Set.set, dispatched on the policy. */
  method RunSet(p: Policy, n: NVRAM) returns (res: Outcome)
    requires SetReady(p, n.Content())
    modifies n
    ensures match Apply(p, old(n.Content()))
            case Ok(img) => res == Pass && n.Content() == img
            case Err(e) => res == Fail(e) && n.Content() == old(n.Content())
  {
    match p
    case DirectoryChecksum =>
      SetDirectoryChecksum(n);
      res := Pass;
    case VpdChecksum =>
      SetVpdChecksum(n);
      res := Pass;
    case RomChecksum => res := SetRomChecksum(n);
    case RomBinary(rom) => res := WriteRomBinary(n, rom);
  }

  /** The checks from position i on decide as the whole list does, once
      those before i have passed. */
  lemma CheckAllFrom(ps: seq<Policy>, i: nat, img: Image)
    requires i < |ps| && AllCheck(ps) && CheckReady(img)
    ensures AllCheck(ps[i..]) && AllCheck(ps[i + 1..]) && Checks(ps[i])
    ensures Verify(ps[i], img).Fail? ==> CheckAll(ps[i..], img) == Verify(ps[i], img)
    ensures Verify(ps[i], img).Pass? ==> CheckAll(ps[i..], img) == CheckAll(ps[i + 1..], img)
  {
    assert ps[i..] == [ps[i]] + ps[i + 1..];
    CheckAllCons(ps[i], ps[i + 1..], img);
  }

  /** The check loop of the check command: runs the checks in turn and
      stops at the first that fails. */
  method RunChecks(n: NVRAM, ps: seq<Policy>) returns (res: Outcome)
    requires AllCheck(ps) && CheckReady(n.Content())
    ensures res == CheckAll(ps, n.Content())
  {
    var i := 0;
    while i < |ps|
      invariant 0 <= i <= |ps| && AllCheck(ps[i..])
      invariant CheckAll(ps, n.Content()) == CheckAll(ps[i..], n.Content())
    {
      CheckAllFrom(ps, i, n.Content());
      var r := RunCheck(ps[i], n);
      if r.Fail? {
        return r;
      }
      i := i + 1;
    }
    return Pass;
  }

  /** The setters from position i on do what the rest of the list does. */
  lemma SetAllFrom(ps: seq<Policy>, i: nat, img: Image)
    requires i < |ps| && AllSmall(ps) && Ready(img)
    ensures AllSmall(ps[i..]) && AllSmall(ps[i + 1..]) && SetReady(ps[i], img)
    ensures Apply(ps[i], img).Err? ==> SetAll(ps[i..], img) == Err(Apply(ps[i], img).error)
    ensures Apply(ps[i], img).Ok? ==>
      Ready(Apply(ps[i], img).value) && SetAll(ps[i..], img) == SetAll(ps[i + 1..], Apply(ps[i], img).value)
  {
    assert ps[i..] == [ps[i]] + ps[i + 1..];
    SetAllCons(ps[i], ps[i + 1..], img);
  }

  /** The set loop of the writeOptionRom command: runs the setters in turn
      and stops at the first that fails. */
  method RunSetters(n: NVRAM, ps: seq<Policy>) returns (res: Outcome)
    requires Ready(n.Content()) && AllSmall(ps)
    modifies n
    ensures match SetAll(ps, old(n.Content()))
            case Ok(img) => res == Pass && n.Content() == img
            case Err(e) => res == Fail(e)
  {
    var i := 0;
    while i < |ps|
      invariant 0 <= i <= |ps| && AllSmall(ps[i..]) && Ready(n.Content())
      invariant SetAll(ps, old(n.Content())) == SetAll(ps[i..], n.Content())
    {
      SetAllFrom(ps, i, n.Content());
      var r := RunSet(ps[i], n);
      if r.Fail? {
        return r;
      }
      i := i + 1;
    }
    return Pass;
  }

  // ---------------------------------------------------------------------
  // The two commands, with the file contents as byte sequences.

  /** The image a stream reads as is one the checks can be run on. */
  predicate CheckInput(stream: seq<byte>)
  {
    Image.Decode(stream).Ok? ==> CheckReady(Image.Decode(stream).value)
  }

  /** The check command: reads the NVRAM and runs the directory, VPD and
      option-ROM checks in that order. A stream too short for a header
      fails; otherwise the outcome is that of the first check that fails,
      or Pass. */
  method CheckCommand(stream: seq<byte>) returns (res: Outcome)
    requires CheckInput(stream)
    ensures Image.Decode(stream).Err? ==> res == Fail(ShortHeader)
    ensures Image.Decode(stream).Ok? ==>
      var img := Image.Decode(stream).value;
      res == CheckAll(CheckOrder, img)
    ensures res.Pass? <==>
      && Image.Decode(stream).Ok?
      && var img := Image.Decode(stream).value;
         DirectoryCheck(img).Pass? && VpdCheck(img).Pass? && RomCheck(img).Pass?
  {
    var n := new NVRAM();
    var r := n.FromReader(stream);
    if r.Fail? {
      return r;
    }
    CheckOrderMeaning(n.Content());
    res := RunChecks(n, CheckOrder);
  }

  /** The image passes every check of the check command. */
  predicate PassesChecks(img: Image)
  {
    && AllCheck(CheckOrder)
    && CheckReady(img)
    && CheckAll(CheckOrder, img) == Pass
  }

  /** What, according to the policies, the writeOptionRom command returns
      for a stream that reads as `img`. */
  function WriteResult(img: Image, rom: seq<byte>): Result<seq<byte>>
    requires Ready(img) && |rom| < 0x100_0000
  {
    WriteThenCheck(img, rom);
    match SetAll(WriteOrder(rom), img)
    case Ok(out) => Ok(out.Encode())
    case Err(e) => Err(e)
  }

  /** The image a stream reads as is one the setters can be run on, and
      the image to install is shorter than 2^24 bytes. */
  predicate WriteInput(stream: seq<byte>, rom: seq<byte>)
  {
    && |rom| < 0x100_0000
    && (Image.Decode(stream).Ok? ==> Ready(Image.Decode(stream).value))
  }

  /** The writeOptionRom command: reads the NVRAM, installs `rom`, sets the
      directory, VPD and option-ROM checksums in that order and returns
      the bytes to write. When it returns bytes, they read back as an
      image that passes every check of the check command. */
  method WriteOptionRom(stream: seq<byte>, rom: seq<byte>) returns (res: Result<seq<byte>>)
    requires WriteInput(stream, rom)
    ensures Image.Decode(stream).Err? ==> res == Err(ShortHeader)
    ensures Image.Decode(stream).Ok? ==> res == WriteResult(Image.Decode(stream).value, rom)
    ensures res.Ok? ==> Image.Decode(res.value).Ok? && PassesChecks(Image.Decode(res.value).value)
  {
    var n := new NVRAM();
    var r := n.FromReader(stream);
    if r.Fail? {
      return Err(r.error);
    }
    ghost var img := n.Content();
    WriteThenCheck(img, rom);
    var s := RunSetters(n, WriteOrder(rom));
    if s.Fail? {
      return Err(s.error);
    }
    DecodeEncode(n.Content());
    return Ok(n.WriteTo());
  }
}
