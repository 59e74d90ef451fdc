/** The NVRAM image: a decoded 256-byte header followed by opaque data
    bytes, with bounds-checked range access over the logical concatenation
    of the encoded header and the data. */
module Nvram {
  import opened Endian
  import opened Errors
  import opened Directory
  import opened NvRange

  /** The state of an NVRAM object as a value. */
  datatype Image = Image(header: Header, data: seq<byte>) {
    /** 256 + len(data). */
    function TotalSize(): nat { HeaderSize + |data| }

    /** The total size, which `NVRAM.GetRange` computes as a uint32, does not wrap. */
    predicate Valid() { TotalSize() < 0x1_0000_0000 }

    /** The bytes the image serialises to: header, then data. */
    function Encode(): (s: seq<byte>)
      ensures |s| == TotalSize()
      ensures s[..HeaderSize] == EncodeHeader(header) && s[HeaderSize..] == data
    {
      EncodeHeader(header) + data
    }

    /** A range `NVRAM.GetRange` can read: inside the image and, when it starts in
        the header, also ending there. */
    predicate Readable(r: Range)
    {
      r.End() <= TotalSize() && (r.start < HeaderSize ==> r.End() <= HeaderSize)
    }

    /** NVRAM.GetRange: the bytes of `r`, taken from the encoded header or
        from the data. */
    function GetRange(r: Range): (res: Result<seq<byte>>)
      requires Valid() && r.NoWrap()
      ensures res.Ok? <==> Readable(r)
      ensures r.End() > TotalSize() ==> res == Err(RangeBeyondImage(r.start, r.length, TotalSize()))
      ensures r.End() <= TotalSize() && r.start < HeaderSize < r.End() ==>
                res == Err(RangeStraddlesHeader(r.End(), HeaderSize))
      ensures res.Ok? ==> |res.value| == r.length
      ensures res.Ok? && r.start < HeaderSize ==> res.value == EncodeHeader(header)[r.start..r.End()]
      ensures res.Ok? && HeaderSize <= r.start ==> res.value == data[r.start - HeaderSize..r.End() - HeaderSize]
    {
      if r.End() > TotalSize() then Err(RangeBeyondImage(r.start, r.length, TotalSize()))
      else if r.start < HeaderSize then
        if r.End() > HeaderSize then Err(RangeStraddlesHeader(r.End(), HeaderSize))
        else Ok(EncodeHeader(header)[r.start..r.End()])
      else Ok(data[r.start - HeaderSize..r.End() - HeaderSize])
    }

    /** NVRAM.SetRange: overwrites the data bytes under `r`. It refuses, in
        this order, a buffer of the wrong length, a range past the end of
        the image and any range that starts in the header. */
    function SetRange(r: Range, bytes: seq<byte>): (res: Result<Image>)
      requires Valid() && r.NoWrap() && |bytes| < 0x1_0000_0000
      ensures res.Ok? <==> |bytes| == r.length && r.End() <= TotalSize() && HeaderSize <= r.start
      ensures |bytes| != r.length ==> res == Err(LengthMismatch(r.length, |bytes|))
      ensures |bytes| == r.length && r.End() > TotalSize() ==>
                res == Err(RangeBeyondImage(r.start, r.length, TotalSize()))
      ensures |bytes| == r.length && r.End() <= TotalSize() && r.start < HeaderSize ==>
                res == Err(HeaderNotWritable)
      ensures res.Ok? ==> res.value.header == header && |res.value.data| == |data|
      ensures res.Ok? ==> res.value.data[r.start - HeaderSize..r.End() - HeaderSize] == bytes
      ensures res.Ok? ==> forall i :: 0 <= i < |data| && !(r.start - HeaderSize <= i < r.End() - HeaderSize) ==>
                res.value.data[i] == data[i]
    {
      if r.length != |bytes| then Err(LengthMismatch(r.length, |bytes|))
      else if r.End() > TotalSize() then Err(RangeBeyondImage(r.start, r.length, TotalSize()))
      else if r.start < HeaderSize then Err(HeaderNotWritable)
      else
        var at := r.start - HeaderSize;
        Ok(Image(header, data[..at] + bytes + data[at + r.length..]))
    }

    /** NVRAM.FromReader: the header from the first 256 bytes, the data from
        all the rest. */
    static function Decode(s: seq<byte>): (res: Result<Image>)
      ensures res.Err? <==> |s| < HeaderSize
      ensures res.Err? ==> res.error == ShortHeader
      ensures res.Ok? ==> res.value.Encode() == s
    {
      match DecodeHeader(s)
      case Err(e) => Err(e)
      case Ok(h) =>
        assert s == s[..HeaderSize] + s[HeaderSize..];
        Ok(Image(h, s[HeaderSize..]))
    }
  }

  /** Whichever part it comes from, a range reads as the same bytes of the
      serialised image. */
  lemma GetRangeEncoded(img: Image, r: Range)
    requires img.Valid() && r.NoWrap() && img.Readable(r)
    ensures img.GetRange(r).value == img.Encode()[r.start..r.End()]
  {
    var s := img.Encode();
    if r.start < HeaderSize {
      assert s[..HeaderSize] == EncodeHeader(img.header);
      SliceOfSlice(s, 0, HeaderSize, r.start, r.End());
    } else {
      assert s[HeaderSize..] == img.data;
      SliceOfSlice(s, HeaderSize, |s|, r.start, r.End());
    }
  }

  /** Reading a range back after writing it gives the bytes written. */
  lemma GetAfterSet(img: Image, r: Range, bytes: seq<byte>)
    requires img.Valid() && r.NoWrap() && |bytes| < 0x1_0000_0000
    requires img.SetRange(r, bytes).Ok?
    ensures img.SetRange(r, bytes).value.Valid()
    ensures img.SetRange(r, bytes).value.GetRange(r) == Ok(bytes)
  {
  }

  /** Two images that share the header and the size, and agree on the data
      bytes under `q`, read `q` alike. */
  lemma GetRangeAgrees(a: Image, b: Image, q: Range)
    requires a.Valid() && q.NoWrap()
    requires a.header == b.header && |a.data| == |b.data|
    requires HeaderSize <= q.start && q.End() <= a.TotalSize() ==>
      forall i :: q.start - HeaderSize <= i < q.End() - HeaderSize ==> a.data[i] == b.data[i]
    ensures b.Valid() && a.GetRange(q) == b.GetRange(q)
  {
    if HeaderSize <= q.start && q.End() <= a.TotalSize() {
      var lo, hi := q.start - HeaderSize, q.End() - HeaderSize;
      assert forall i :: 0 <= i < hi - lo ==> a.data[lo..hi][i] == b.data[lo..hi][i];
      assert a.data[lo..hi] == b.data[lo..hi];
    }
  }

  /** Writing a range leaves every range apart from it reading as before,
      including whether it can be read at all. */
  lemma GetAfterSetElsewhere(img: Image, r: Range, bytes: seq<byte>, q: Range)
    requires img.Valid() && r.NoWrap() && q.NoWrap() && |bytes| < 0x1_0000_0000
    requires img.SetRange(r, bytes).Ok?
    requires q.DisjointFrom(r)
    ensures img.SetRange(r, bytes).value.GetRange(q) == img.GetRange(q)
  {
    var after := img.SetRange(r, bytes).value;
    if HeaderSize <= q.start && q.End() <= img.TotalSize() {
      forall i | q.start - HeaderSize <= i < q.End() - HeaderSize
        ensures img.data[i] == after.data[i]
      {
        assert !(r.start - HeaderSize <= i < r.End() - HeaderSize);
      }
    }
    GetRangeAgrees(img, after, q);
  }

  /** A range inside a readable range reads as the matching part of it. */
  lemma GetRangeWithin(img: Image, r: Range, q: Range)
    requires img.Valid() && r.NoWrap() && img.Readable(r) && q.Within(r)
    ensures q.NoWrap() && img.Readable(q)
    ensures img.GetRange(q) == Ok(img.GetRange(r).value[q.start - r.start..q.End() - r.start])
  {
    if r.start < HeaderSize {
      SliceOfSlice(EncodeHeader(img.header), r.start, r.End(), q.start, q.End());
    } else {
      SliceOfSlice(img.data, r.start - HeaderSize, r.End() - HeaderSize, q.start - HeaderSize, q.End() - HeaderSize);
    }
  }

  /** Writing back the bytes a data range already holds changes nothing. */
  lemma SetRangeUnchanged(img: Image, r: Range)
    requires img.Valid() && r.NoWrap() && HeaderSize <= r.start && r.End() <= img.TotalSize()
    ensures img.SetRange(r, img.GetRange(r).value) == Ok(img)
  {
    var at := r.start - HeaderSize;
    assert img.data[..at] + img.data[at..at + r.length] + img.data[at + r.length..] == img.data;
  }

  /** Writing the last four bytes of a data range: the range then reads as
      its old bytes but the last four, followed by the new ones. */
  lemma WriteTail(img: Image, r: Range, bytes: seq<byte>)
    requires img.Valid() && r.NoWrap() && r.length >= 4 && |bytes| == 4
    requires HeaderSize <= r.start && r.End() <= img.TotalSize()
    ensures img.SetRange(Range(r.End() - 4, 4), bytes).Ok?
    ensures var out := img.SetRange(Range(r.End() - 4, 4), bytes).value;
      && out.Valid() && out.header == img.header
      && var before := img.GetRange(r).value;
         out.GetRange(r) == Ok(before[..|before| - 4] + bytes)
  {
    var out := img.SetRange(Range(r.End() - 4, 4), bytes).value;
    var at := r.start - HeaderSize;
    var n := r.length;
    assert out.data == img.data[..at + n - 4] + bytes + img.data[at + n..];
    assert out.data[at..at + n] == img.data[at..at + n][..n - 4] + bytes;
  }

  /** Serialising an image and reading the bytes back gives the image. */
  lemma DecodeEncode(img: Image)
    ensures Image.Decode(img.Encode()) == Ok(img)
  {
    DecodeEncodeHeader(img.header, img.data);
    assert img.Encode()[HeaderSize..] == img.data;
  }

  /** Reading a stream and serialising the image gives the stream back. */
  lemma EncodeDecode(s: seq<byte>)
    requires |s| >= HeaderSize
    ensures Image.Decode(s).Ok? && Image.Decode(s).value.Encode() == s
  {
  }

  /** NVRAM: the header and data that `NVRAM.SetRange` updates in place. */
  class NVRAM {
    var header: Header
    var data: seq<byte>

    /** The zero value `NVRAM{}` of the Go type. */
    constructor ()
      ensures header == ZeroHeader() && data == []
    {
      header := ZeroHeader();
      data := [];
    }

    function Content(): Image
      reads this
    {
      Image(header, data)
    }

    function GetRange(r: Range): Result<seq<byte>>
      reads this
      requires Content().Valid() && r.NoWrap()
    {
      Content().GetRange(r)
    }

    /** NVRAM.WriteTo, as the bytes written. */
    function WriteTo(): seq<byte>
      reads this
    {
      Content().Encode()
    }

    /** Copies `bytes` into the data under `r`, or reports why not and
        changes nothing. */
    method SetRange(r: Range, bytes: seq<byte>) returns (res: Outcome)
      requires Content().Valid() && r.NoWrap() && |bytes| < 0x1_0000_0000
      modifies this
      ensures match old(Content()).SetRange(r, bytes)
              case Ok(img) => res == Pass && Content() == img
              case Err(e) => res == Fail(e) && Content() == old(Content())
    {
      if r.length != |bytes| {
        return Fail(LengthMismatch(r.length, |bytes|));
      }
      var totalSize := HeaderSize + |data|;
      if r.start + r.length > totalSize {
        return Fail(RangeBeyondImage(r.start, r.length, totalSize));
      }
      if r.start < HeaderSize {
        return Fail(HeaderNotWritable);
      }
      var at := r.start - HeaderSize;
      data := data[..at] + bytes + data[at + r.length..];
      res := Pass;
    }

    /** Replaces the header and the data with those read from `stream`; a
        stream shorter than a header changes nothing. */
    method FromReader(stream: seq<byte>) returns (res: Outcome)
      modifies this
      ensures match Image.Decode(stream)
              case Ok(img) => res == Pass && Content() == img
              case Err(e) => res == Fail(e) && Content() == old(Content())
    {
      var h := DecodeHeader(stream);
      if h.Err? {
        return Fail(h.error);
      }
      header := h.value;
      data := stream[HeaderSize..];
      res := Pass;
    }
  }
}
