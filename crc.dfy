/** The checksum primitives of the NVRAM format: an 8-bit additive
    checksum, the reflected CRC-32 (polynomial 0xEDB88320, the CRC-32 of
    ISO/IEC 13239 and of the IEEE 802.3 frame check sequence) and the 32-bit
    byte swap the format applies before storing a CRC. */
module Crc {
  import opened Bits
  import opened Endian

  /** TCrc32.Reverse: byte i of the word moves to byte 3 - i. */
  function Reverse(c: bv32): (r: bv32)
    ensures BigEndian(r) == LittleEndian(c)
  {
    ((c & 0xFF00_0000) >> 24) | ((c & 0x00FF_0000) >> 8) | ((c & 0x0000_FF00) << 8) | ((c & 0x0000_00FF) << 24)
  }

  lemma ReverseInvolution(c: bv32)
    ensures Reverse(Reverse(c)) == c
  {
  }

  // ---------------------------------------------------------------------
  // Crc8

  /** The sum of the bytes in a uint8 accumulator, wrapping at 256. */
  function Sum8(b: seq<byte>): byte
  {
    if b == [] then 0 else Sum8(b[..|b| - 1]) + b[|b| - 1]
  }

  /** Crc8: the byte that brings the wrapping sum of `b` to zero, and the
      only one that does. */
  function Crc8(b: seq<byte>): (r: byte)
    ensures Sum8(b) + r == 0
  {
    (Sum8(b) ^ 0xFF) + 1
  }

  /** No other byte brings the sum to zero. */
  lemma Crc8Unique(b: seq<byte>, x: byte)
    requires Sum8(b) + x == 0
    ensures x == Crc8(b)
  {
  }

  /** The loop of `crc.Crc8`: a wrapping 8-bit sum, then `(sum ^ 0xFF) + 1`. */
  method ComputeCrc8(b: seq<byte>) returns (r: byte)
    ensures r == Crc8(b)
  {
    var acc: byte := 0;
    var i := 0;
    while i < |b|
      invariant 0 <= i <= |b|
      invariant acc == Sum8(b[..i])
    {
      assert b[..i + 1][..i] == b[..i];
      acc := acc + b[i];
      i := i + 1;
    }
    assert b[..i] == b;
    r := (acc ^ 0xFF) + 1;
  }

  /** The same byte read as a number: the negation of the sum modulo 256. */
  lemma Crc8Negation(b: seq<byte>)
    ensures Crc8(b) as int == (256 - Sum8(b) as int) % 256
  {
    NegateByte(Sum8(b));
  }

  lemma Crc8Empty()
    ensures Crc8([]) == 0
  {
  }

  lemma AddAssociative(x: byte, y: byte, z: byte)
    ensures (x + y) + z == x + (y + z)
  {
  }

  lemma AddRotate(x: byte, y: byte, z: byte)
    ensures (x + y) + z == (x + z) + y
  {
  }

  lemma {:induction false} Sum8Append(a: seq<byte>, b: seq<byte>)
    ensures Sum8(a + b) == Sum8(a) + Sum8(b)
  {
    if b == [] {
      assert a + b == a;
    } else {
      var front, last := b[..|b| - 1], b[|b| - 1];
      assert (a + b)[..|a + b| - 1] == a + front;
      calc {
        Sum8(a + b);
        Sum8(a + front) + last;
        { Sum8Append(a, front); }
        (Sum8(a) + Sum8(front)) + last;
        { AddAssociative(Sum8(a), Sum8(front), last); }
        Sum8(a) + (Sum8(front) + last);
        Sum8(a) + Sum8(b);
      }
    }
  }

  /** Appending one byte adds it to the sum. */
  lemma Sum8Snoc(p: seq<byte>, x: byte)
    ensures Sum8(p + [x]) == Sum8(p) + x
  {
    assert (p + [x])[..|p + [x]| - 1] == p;
  }

  /** Taking byte j out of the sum and adding it back last. */
  lemma Sum8Remove(c: seq<byte>, j: nat)
    requires j < |c|
    ensures Sum8(c) == Sum8(c[..j] + c[j + 1..]) + c[j]
  {
    var p, q, x := c[..j], c[j + 1..], c[j];
    assert c == (p + [x]) + q;
    calc {
      Sum8(c);
      Sum8((p + [x]) + q);
      { Sum8Append(p + [x], q); }
      Sum8(p + [x]) + Sum8(q);
      { Sum8Snoc(p, x); }
      (Sum8(p) + x) + Sum8(q);
      { AddRotate(Sum8(p), x, Sum8(q)); }
      (Sum8(p) + Sum8(q)) + x;
      { Sum8Append(p, q); }
      Sum8(p + q) + x;
    }
  }

  /** Where the last byte of `b` sits in a permutation `c` of `b`. */
  lemma MatchLast(b: seq<byte>, c: seq<byte>) returns (j: nat)
    requires b != [] && multiset(b) == multiset(c)
    ensures j < |c| && c[j] == b[|b| - 1]
    ensures multiset(b[..|b| - 1]) == multiset(c[..j] + c[j + 1..])
  {
    var x := b[|b| - 1];
    assert b == b[..|b| - 1] + [x];
    assert x in multiset(c);
    j :| 0 <= j < |c| && c[j] == x;
    assert c == c[..j] + [x] + c[j + 1..];
    MultisetWithout(b[..|b| - 1], c[..j] + c[j + 1..], c[..j], c[j + 1..], x);
  }

  lemma MultisetWithout(front: seq<byte>, rest: seq<byte>, p: seq<byte>, q: seq<byte>, x: byte)
    requires rest == p + q
    requires multiset(front + [x]) == multiset(p + [x] + q)
    ensures multiset(front) == multiset(rest)
  {
    calc {
      multiset(front);
      multiset(front + [x]) - multiset{x};
      multiset(p + [x] + q) - multiset{x};
      multiset(p) + multiset(q);
      multiset(rest);
    }
  }

  lemma {:induction false} Sum8Permutation(b: seq<byte>, c: seq<byte>)
    requires multiset(b) == multiset(c)
    ensures Sum8(b) == Sum8(c)
    decreases |b|
  {
    if b == [] {
      assert |c| == |multiset(c)| == 0;
    } else {
      var j := MatchLast(b, c);
      calc {
        Sum8(b);
        Sum8(b[..|b| - 1]) + b[|b| - 1];
        { Sum8Permutation(b[..|b| - 1], c[..j] + c[j + 1..]); }
        Sum8(c[..j] + c[j + 1..]) + c[j];
        { Sum8Remove(c, j); }
        Sum8(c);
      }
    }
  }

  /** Crc8 depends only on which bytes occur, not on their order. */
  lemma Crc8Permutation(b: seq<byte>, c: seq<byte>)
    requires multiset(b) == multiset(c)
    ensures Crc8(b) == Crc8(c)
  {
    Sum8Permutation(b, c);
  }

  // ---------------------------------------------------------------------
  // Crc32

  const Polynomial: bv32 := 0xEDB8_8320
  const InitialRegister: bv32 := 0xFFFF_FFFF
  const FinalXor: bv32 := 0xFFFF_FFFF

  /** One LSB-first step: shift the register right by one and XOR in the
      polynomial when the low bits of register and input differ. */
  function Step(reg: bv32, v: bv32): bv32
  {
    (reg >> 1) ^ (if (reg ^ v) & 1 == 0 then 0 else Polynomial)
  }

  /** `n` steps, the input shifted right by one after each. */
  function Steps(reg: bv32, v: bv32, n: nat): bv32
    decreases n
  {
    if n == 0 then reg else Steps(Step(reg, v), v >> 1, n - 1)
  }

  /** The register after feeding it the 8 bits of one byte. */
  function UpdateByte(reg: bv32, x: byte): bv32
  {
    Steps(reg, x as bv32, 8)
  }

  /** The register after feeding it every byte of `b`, from `reg`. */
  function Fold(reg: bv32, b: seq<byte>): bv32
  {
    if b == [] then reg else UpdateByte(Fold(reg, b[..|b| - 1]), b[|b| - 1])
  }

  /** The register `crc.Crc32` holds after processing `b`. */
  function Register(b: seq<byte>): bv32
  {
    Fold(InitialRegister, b)
  }

  /** Crc32: the final register XOR 0xFFFFFFFF. */
  function Crc32(b: seq<byte>): (c: bv32)
    ensures b == [] ==> c == 0
    ensures c ^ FinalXor == Fold(InitialRegister, b)
  {
    Register(b) ^ FinalXor
  }

  lemma StepsUnfold(reg: bv32, v: bv32, n: nat)
    requires n > 0
    ensures Steps(reg, v, n) == Steps(Step(reg, v), v >> 1, n - 1)
  {
  }

  /** The inner loop of `crc.Crc32`: the 8 steps for one byte. */
  method ShiftInByte(reg0: bv32, x: byte) returns (reg: bv32)
    ensures reg == UpdateByte(reg0, x)
  {
    reg := reg0;
    var v: bv32 := x as bv32;
    ghost var target := UpdateByte(reg0, x);
    var k := 0;
    while k < 8
      invariant 0 <= k <= 8
      invariant Steps(reg, v, 8 - k) == target
    {
      StepsUnfold(reg, v, 8 - k);
      var mix: bv32 := if (reg ^ v) & 1 == 0 then 0 else Polynomial;
      assert (reg >> 1) ^ mix == Step(reg, v);
      reg, v := (reg >> 1) ^ mix, v >> 1;
      k := k + 1;
    }
  }

  /** The outer loop of `crc.Crc32` over the bytes, then the final XOR. */
  method ComputeCrc32(b: seq<byte>) returns (c: bv32)
    ensures c == Crc32(b)
  {
    var reg: bv32 := InitialRegister;
    var i := 0;
    while i < |b|
      invariant 0 <= i <= |b|
      invariant reg == Fold(InitialRegister, b[..i])
    {
      reg := ShiftInByte(reg, b[i]);
      assert b[..i + 1][..i] == b[..i];
      i := i + 1;
    }
    assert b[..i] == b;
    c := reg ^ FinalXor;
  }

  /** Feeding `b + c` is feeding `b`, then feeding `c` from there. */
  lemma {:induction false} FoldAppend(reg: bv32, b: seq<byte>, c: seq<byte>)
    ensures Fold(reg, b + c) == Fold(Fold(reg, b), c)
    decreases |c|
  {
    if c == [] {
      assert b + c == b;
    } else {
      assert (b + c)[..|b + c| - 1] == b + c[..|c| - 1];
      FoldAppend(reg, b, c[..|c| - 1]);
    }
  }

  /** The register after `b + c` is the per-byte fold over `c` started from
      the register after `b`. */
  lemma RegisterAppend(b: seq<byte>, c: seq<byte>)
    ensures Register(b + c) == Fold(Register(b), c)
  {
    FoldAppend(InitialRegister, b, c);
  }

  /** The eight steps of one byte, written out. */
  lemma UpdateByteUnrolled(reg: bv32, x: byte)
    ensures UpdateByte(reg, x) ==
      var v := x as bv32;
      var r1 := Step(reg, v);
      var r2 := Step(r1, v >> 1);
      var r3 := Step(r2, v >> 2);
      var r4 := Step(r3, v >> 3);
      var r5 := Step(r4, v >> 4);
      var r6 := Step(r5, v >> 5);
      var r7 := Step(r6, v >> 6);
      Step(r7, v >> 7)
  {
    var v := x as bv32;
    StepsUnfold(reg, v, 8);
    var r1 := Step(reg, v);
    StepsUnfold(r1, v >> 1, 7);
    var r2 := Step(r1, v >> 1);
    StepsUnfold(r2, v >> 2, 6);
    var r3 := Step(r2, v >> 2);
    StepsUnfold(r3, v >> 3, 5);
    var r4 := Step(r3, v >> 3);
    StepsUnfold(r4, v >> 4, 4);
    var r5 := Step(r4, v >> 4);
    StepsUnfold(r5, v >> 5, 3);
    var r6 := Step(r5, v >> 5);
    StepsUnfold(r6, v >> 6, 2);
    var r7 := Step(r6, v >> 6);
    StepsUnfold(r7, v >> 7, 1);
    assert (v >> 1) >> 1 == v >> 2 && (v >> 2) >> 1 == v >> 3 && (v >> 3) >> 1 == v >> 4;
    assert (v >> 4) >> 1 == v >> 5 && (v >> 5) >> 1 == v >> 6 && (v >> 6) >> 1 == v >> 7;
  }

  /** One byte from its eight intermediate registers. */
  lemma UpdateByteFromSteps(reg: bv32, x: byte, r: seq<bv32>)
    requires |r| == 8
    requires r[0] == Step(reg, x as bv32)
    requires forall k :: 1 <= k < 8 ==> r[k] == Step(r[k - 1], (x as bv32) >> k)
    ensures UpdateByte(reg, x) == r[7]
  {
    UpdateByteUnrolled(reg, x);
    var v := x as bv32;
    assert r[1] == Step(r[0], v >> 1) && r[2] == Step(r[1], v >> 2) && r[3] == Step(r[2], v >> 3);
    assert r[4] == Step(r[3], v >> 4) && r[5] == Step(r[4], v >> 5);
    assert r[6] == Step(r[5], v >> 6) && r[7] == Step(r[6], v >> 7);
  }

  lemma FoldSnoc(reg: bv32, p: seq<byte>, x: byte, before: bv32, after: bv32)
    requires Fold(reg, p) == before && UpdateByte(before, x) == after
    ensures Fold(reg, p + [x]) == after
  {
    assert (p + [x])[..|p|] == p;
  }

  /** One byte of a concrete computation: the register after `p + [x]`
      from the register after `p` and the eight intermediate registers. */
  lemma FoldByte(p: seq<byte>, x: byte, before: bv32, r: seq<bv32>)
    requires Fold(InitialRegister, p) == before
    requires |r| == 8
    requires r[0] == Step(before, x as bv32)
    requires forall k :: 1 <= k < 8 ==> r[k] == Step(r[k - 1], (x as bv32) >> k)
    ensures Fold(InitialRegister, p + [x]) == r[7]
  {
    UpdateByteFromSteps(before, x, r);
    FoldSnoc(InitialRegister, p, x, before, r[7]);
  }

  /** The register of the check-value computation after 1 byte. */
  lemma CheckValueRegister1()
    ensures Fold(InitialRegister, [0x31]) == 0x7C231048
  {
    var p: seq<byte> := [];
    FoldByte(p, 0x31, 0xFFFFFFFF, [0x7FFFFFFF, 0xD2477CDF, 0x849B3D4F, 0xAFF51D87, 0x57FA8EC3, 0x2BFD4761, 0xF8462090, 0x7C231048]);
    assert p + [0x31] == [0x31];
  }

  /** The register of the check-value computation after 2 bytes. */
  lemma CheckValueRegister2()
    ensures Fold(InitialRegister, [0x31, 0x32]) == 0xB0ACBB32
  {
    CheckValueRegister1();
    var p: seq<byte> := [0x31];
    FoldByte(p, 0x32, 0x7C231048, [0x3E118824, 0xF2B04732, 0x79582399, 0xD11492EC, 0x8532CA56, 0xAF21E60B, 0xBA287025, 0xB0ACBB32]);
    assert p + [0x32] == [0x31, 0x32];
  }

  /** The register of the check-value computation after 3 bytes. */
  lemma CheckValueRegister3()
    ensures Fold(InitialRegister, [0x31, 0x32, 0x33]) == 0x77B79C2D
  {
    CheckValueRegister2();
    var p: seq<byte> := [0x31, 0x32];
    FoldByte(p, 0x33, 0xB0ACBB32, [0xB5EEDEB9, 0x5AF76F5C, 0x2D7BB7AE, 0x16BDDBD7, 0x0B5EEDEB, 0x05AF76F5, 0xEF6F385A, 0x77B79C2D]);
    assert p + [0x33] == [0x31, 0x32, 0x33];
  }

  /** The register of the check-value computation after 4 bytes. */
  lemma CheckValueRegister4()
    ensures Fold(InitialRegister, [0x31, 0x32, 0x33, 0x34]) == 0x641C1F5C
  {
    CheckValueRegister3();
    var p: seq<byte> := [0x31, 0x32, 0x33];
    FoldByte(p, 0x34, 0x77B79C2D, [0xD6634D36, 0x6B31A69B, 0x3598D34D, 0xF774EA86, 0x9602F663, 0x4B017B31, 0xC8383EB8, 0x641C1F5C]);
    assert p + [0x34] == [0x31, 0x32, 0x33, 0x34];
  }

  /** The register of the check-value computation after 5 bytes. */
  lemma CheckValueRegister5()
    ensures Fold(InitialRegister, [0x31, 0x32, 0x33, 0x34, 0x35]) == 0x340AC5E3
  {
    CheckValueRegister4();
    var p: seq<byte> := [0x31, 0x32, 0x33, 0x34];
    FoldByte(p, 0x35, 0x641C1F5C, [0xDFB68C8E, 0x6FDB4647, 0x37EDA323, 0xF64E52B1, 0x7B272958, 0xD02B178C, 0x68158BC6, 0x340AC5E3]);
    assert p + [0x35] == [0x31, 0x32, 0x33, 0x34, 0x35];
  }

  /** The register of the check-value computation after 6 bytes. */
  lemma CheckValueRegister6()
    ensures Fold(InitialRegister, [0x31, 0x32, 0x33, 0x34, 0x35, 0x36]) == 0xF68D2C9E
  {
    CheckValueRegister5();
    var p: seq<byte> := [0x31, 0x32, 0x33, 0x34, 0x35];
    FoldByte(p, 0x36, 0x340AC5E3, [0xF7BDE1D1, 0x7BDEF0E8, 0xD057FB54, 0x682BFDAA, 0xD9AD7DF5, 0x6CD6BEFA, 0x366B5F7D, 0xF68D2C9E]);
    assert p + [0x36] == [0x31, 0x32, 0x33, 0x34, 0x35, 0x36];
  }

  /** The register of the check-value computation after 7 bytes. */
  lemma CheckValueRegister7()
    ensures Fold(InitialRegister, [0x31, 0x32, 0x33, 0x34, 0x35, 0x36, 0x37]) == 0xAFFC9660
  {
    CheckValueRegister6();
    var p: seq<byte> := [0x31, 0x32, 0x33, 0x34, 0x35, 0x36];
    FoldByte(p, 0x37, 0xF68D2C9E, [0x96FE156F, 0x4B7F0AB7, 0x25BF855B, 0xFF67418D, 0x7FB3A0C6, 0xD2615343, 0x84882A81, 0xAFFC9660]);
    assert p + [0x37] == [0x31, 0x32, 0x33, 0x34, 0x35, 0x36, 0x37];
  }

  /** The register of the check-value computation after 8 bytes. */
  lemma CheckValueRegister8()
    ensures Fold(InitialRegister, [0x31, 0x32, 0x33, 0x34, 0x35, 0x36, 0x37, 0x38]) == 0x651F2550
  {
    CheckValueRegister7();
    var p: seq<byte> := [0x31, 0x32, 0x33, 0x34, 0x35, 0x36, 0x37];
    FoldByte(p, 0x38, 0xAFFC9660, [0x57FE4B30, 0x2BFF2598, 0x15FF92CC, 0xE7474A46, 0x9E1B2603, 0x4F0D9301, 0xCA3E4AA0, 0x651F2550]);
    assert p + [0x38] == [0x31, 0x32, 0x33, 0x34, 0x35, 0x36, 0x37, 0x38];
  }

  /** The register of the check-value computation after 9 bytes. */
  lemma CheckValueRegister9()
    ensures Fold(InitialRegister, [0x31, 0x32, 0x33, 0x34, 0x35, 0x36, 0x37, 0x38, 0x39]) == 0x340BC6D9
  {
    CheckValueRegister8();
    var p: seq<byte> := [0x31, 0x32, 0x33, 0x34, 0x35, 0x36, 0x37, 0x38];
    FoldByte(p, 0x39, 0x651F2550, [0xDF371188, 0x6F9B88C4, 0x37CDC462, 0xF65E6111, 0x7B2F3088, 0xD02F1B64, 0x68178DB2, 0x340BC6D9]);
    assert p + [0x39] == [0x31, 0x32, 0x33, 0x34, 0x35, 0x36, 0x37, 0x38, 0x39];
  }

  /** The standard check value of this CRC: the nine ASCII digits
      "123456789" give 0xCBF43926. */
  lemma Crc32CheckValue()
    ensures Crc32([0x31, 0x32, 0x33, 0x34, 0x35, 0x36, 0x37, 0x38, 0x39]) == 0xCBF4_3926
  {
    CheckValueRegister9();
  }
}
