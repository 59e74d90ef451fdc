/** Byte order of 32-bit words, as the standard encoding/binary package
    writes and reads them. */
module Endian {

  type byte = bv8

  /** The four bytes of `x`, most significant first. */
  function BigEndian(x: bv32): (s: seq<byte>)
    ensures |s| == 4
  {
    [(x >> 24) as byte, ((x >> 16) & 0xFF) as byte, ((x >> 8) & 0xFF) as byte, (x & 0xFF) as byte]
  }

  /** The four bytes of `x`, least significant first. */
  function LittleEndian(x: bv32): (s: seq<byte>)
    ensures |s| == 4
  {
    [(x & 0xFF) as byte, ((x >> 8) & 0xFF) as byte, ((x >> 16) & 0xFF) as byte, (x >> 24) as byte]
  }

  /** The word whose big-endian bytes are `s`. */
  function FromBigEndian(s: seq<byte>): (x: bv32)
    requires |s| == 4
    ensures BigEndian(x) == s
  {
    (s[0] as bv32 << 24) | (s[1] as bv32 << 16) | (s[2] as bv32 << 8) | (s[3] as bv32)
  }

  lemma BigEndianRoundTrip(x: bv32)
    ensures FromBigEndian(BigEndian(x)) == x
  {
  }

  lemma BigEndianInjective(x: bv32, y: bv32)
    requires BigEndian(x) == BigEndian(y)
    ensures x == y
  {
    BigEndianRoundTrip(x);
    BigEndianRoundTrip(y);
  }

  /** A slice of a slice is a slice of the whole. */
  lemma SliceOfSlice(s: seq<byte>, i: nat, j: nat, k: nat, l: nat)
    requires i <= k <= l <= j <= |s|
    ensures s[i..j][k - i..l - i] == s[k..l]
  {
    var t := s[i..j][k - i..l - i];
    assert forall m :: 0 <= m < |t| ==> t[m] == s[k..l][m];
  }

  /** The front and the last four bytes of a slice, as slices of the whole. */
  lemma SliceTail(s: seq<byte>, i: nat, j: nat)
    requires i + 4 <= j <= |s|
    ensures s[i..j][..j - i - 4] == s[i..j - 4]
    ensures s[i..j][j - i - 4..] == s[j - 4..j]
  {
    SliceOfSlice(s, i, j, i, j - 4);
    SliceOfSlice(s, i, j, j - 4, j);
  }
}
