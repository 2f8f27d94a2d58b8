/** Little-endian words as packed bytes, and which byte a count of zeros points at. */
module Words {
  import opened BitUtils

  /** A load of eight bytes. */
  function Pack64(b0: bv8, b1: bv8, b2: bv8, b3: bv8, b4: bv8, b5: bv8, b6: bv8, b7: bv8): bv64 {
    (b0 as bv64) | ((b1 as bv64) << 8) | ((b2 as bv64) << 16) | ((b3 as bv64) << 24)
    | ((b4 as bv64) << 32) | ((b5 as bv64) << 40) | ((b6 as bv64) << 48) | ((b7 as bv64) << 56)
  }

  /** A load of four bytes. */
  function Pack32(b0: bv8, b1: bv8, b2: bv8, b3: bv8): bv32 {
    (b0 as bv32) | ((b1 as bv32) << 8) | ((b2 as bv32) << 16) | ((b3 as bv32) << 24)
  }

  /** What a search looks for: a byte with its top bit set, or a byte that is not a space. */
  datatype Probe = HighBit | NonSpace

  function Test(probe: Probe, b: bv8): bv8 {
    if probe.HighBit? then b & 0x80 else b ^ 0x20
  }

  function Masked64(probe: Probe, w: bv64): bv64 {
    if probe.HighBit? then w & 0x8080_8080_8080_8080 else w ^ 0x2020_2020_2020_2020
  }

  function Masked32(probe: Probe, w: bv32): bv32 {
    if probe.HighBit? then w & 0x8080_8080 else w ^ 0x2020_2020
  }

  // ---------- packing and masking ----------

  lemma PackAnd64(b0: bv8, b1: bv8, b2: bv8, b3: bv8, b4: bv8, b5: bv8, b6: bv8, b7: bv8)
    ensures Pack64(b0, b1, b2, b3, b4, b5, b6, b7) & 0x8080_8080_8080_8080
         == Pack64(b0 & 0x80, b1 & 0x80, b2 & 0x80, b3 & 0x80, b4 & 0x80, b5 & 0x80, b6 & 0x80, b7 & 0x80)
  {
  }

  lemma PackXor64(b0: bv8, b1: bv8, b2: bv8, b3: bv8, b4: bv8, b5: bv8, b6: bv8, b7: bv8)
    ensures Pack64(b0, b1, b2, b3, b4, b5, b6, b7) ^ 0x2020_2020_2020_2020
         == Pack64(b0 ^ 0x20, b1 ^ 0x20, b2 ^ 0x20, b3 ^ 0x20, b4 ^ 0x20, b5 ^ 0x20, b6 ^ 0x20, b7 ^ 0x20)
  {
  }

  lemma PackAnd32(b0: bv8, b1: bv8, b2: bv8, b3: bv8)
    ensures Pack32(b0, b1, b2, b3) & 0x8080_8080 == Pack32(b0 & 0x80, b1 & 0x80, b2 & 0x80, b3 & 0x80)
  {
  }

  lemma PackXor32(b0: bv8, b1: bv8, b2: bv8, b3: bv8)
    ensures Pack32(b0, b1, b2, b3) ^ 0x2020_2020 == Pack32(b0 ^ 0x20, b1 ^ 0x20, b2 ^ 0x20, b3 ^ 0x20)
  {
  }

  /** Masking a word tests its bytes one by one. */
  lemma MaskedBytes64(probe: Probe, b0: bv8, b1: bv8, b2: bv8, b3: bv8, b4: bv8, b5: bv8, b6: bv8, b7: bv8)
    ensures Masked64(probe, Pack64(b0, b1, b2, b3, b4, b5, b6, b7))
         == Pack64(Test(probe, b0), Test(probe, b1), Test(probe, b2), Test(probe, b3),
                   Test(probe, b4), Test(probe, b5), Test(probe, b6), Test(probe, b7))
  {
    if probe.HighBit? { PackAnd64(b0, b1, b2, b3, b4, b5, b6, b7); } else { PackXor64(b0, b1, b2, b3, b4, b5, b6, b7); }
  }

  lemma MaskedBytes32(probe: Probe, b0: bv8, b1: bv8, b2: bv8, b3: bv8)
    ensures Masked32(probe, Pack32(b0, b1, b2, b3))
         == Pack32(Test(probe, b0), Test(probe, b1), Test(probe, b2), Test(probe, b3))
  {
    if probe.HighBit? { PackAnd32(b0, b1, b2, b3); } else { PackXor32(b0, b1, b2, b3); }
  }

  lemma PackZero64(b0: bv8, b1: bv8, b2: bv8, b3: bv8, b4: bv8, b5: bv8, b6: bv8, b7: bv8)
    ensures Pack64(b0, b1, b2, b3, b4, b5, b6, b7) == 0 <==> b0 == b1 == b2 == b3 == b4 == b5 == b6 == b7 == 0
  {
  }

  lemma PackZero32(b0: bv8, b1: bv8, b2: bv8, b3: bv8)
    ensures Pack32(b0, b1, b2, b3) == 0 <==> b0 == b1 == b2 == b3 == 0
  {
  }

  lemma WidenByte(b: bv8)
    ensures b == 0 <==> b as bv64 == 0
  {
  }

  lemma PackLow64(b0: bv8, b1: bv8, b2: bv8, b3: bv8, b4: bv8, b5: bv8, b6: bv8, b7: bv8)
    ensures Pack64(b0, b1, b2, b3, b4, b5, b6, b7) & 0xFF == b0 as bv64
  {
  }

  lemma PackDown64(b0: bv8, b1: bv8, b2: bv8, b3: bv8, b4: bv8, b5: bv8, b6: bv8, b7: bv8)
    ensures Pack64(b0, b1, b2, b3, b4, b5, b6, b7) >> 8 == Pack64(b1, b2, b3, b4, b5, b6, b7, 0)
  {
  }

  lemma PackHigh64(b0: bv8, b1: bv8, b2: bv8, b3: bv8, b4: bv8, b5: bv8, b6: bv8, b7: bv8)
    ensures Pack64(b0, b1, b2, b3, b4, b5, b6, b7) >> 56 == b7 as bv64
  {
  }

  lemma PackUp64(b0: bv8, b1: bv8, b2: bv8, b3: bv8, b4: bv8, b5: bv8, b6: bv8, b7: bv8)
    ensures Pack64(b0, b1, b2, b3, b4, b5, b6, b7) << 8 == Pack64(0, b0, b1, b2, b3, b4, b5, b6)
  {
  }

  // ---------- the byte a count points at ----------

  /** Byte j is the first non-zero one. */
  predicate FirstOf8(j: int, b0: bv8, b1: bv8, b2: bv8, b3: bv8, b4: bv8, b5: bv8, b6: bv8, b7: bv8) {
    || (j == 0 && b0 != 0)
    || (j == 1 && b0 == 0 && b1 != 0)
    || (j == 2 && b0 == 0 && b1 == 0 && b2 != 0)
    || (j == 3 && b0 == 0 && b1 == 0 && b2 == 0 && b3 != 0)
    || (j == 4 && b0 == 0 && b1 == 0 && b2 == 0 && b3 == 0 && b4 != 0)
    || (j == 5 && b0 == 0 && b1 == 0 && b2 == 0 && b3 == 0 && b4 == 0 && b5 != 0)
    || (j == 6 && b0 == 0 && b1 == 0 && b2 == 0 && b3 == 0 && b4 == 0 && b5 == 0 && b6 != 0)
    || (j == 7 && b0 == 0 && b1 == 0 && b2 == 0 && b3 == 0 && b4 == 0 && b5 == 0 && b6 == 0 && b7 != 0)
  }

  predicate LastOf8(j: int, b0: bv8, b1: bv8, b2: bv8, b3: bv8, b4: bv8, b5: bv8, b6: bv8, b7: bv8) {
    || (j == 0 && b1 == 0 && b2 == 0 && b3 == 0 && b4 == 0 && b5 == 0 && b6 == 0 && b7 == 0 && b0 != 0)
    || (j == 1 && b2 == 0 && b3 == 0 && b4 == 0 && b5 == 0 && b6 == 0 && b7 == 0 && b1 != 0)
    || (j == 2 && b3 == 0 && b4 == 0 && b5 == 0 && b6 == 0 && b7 == 0 && b2 != 0)
    || (j == 3 && b4 == 0 && b5 == 0 && b6 == 0 && b7 == 0 && b3 != 0)
    || (j == 4 && b5 == 0 && b6 == 0 && b7 == 0 && b4 != 0)
    || (j == 5 && b6 == 0 && b7 == 0 && b5 != 0)
    || (j == 6 && b7 == 0 && b6 != 0)
    || (j == 7 && b7 != 0)
  }

  predicate FirstOf4(j: int, b0: bv8, b1: bv8, b2: bv8, b3: bv8) {
    || (j == 0 && b0 != 0)
    || (j == 1 && b0 == 0 && b1 != 0)
    || (j == 2 && b0 == 0 && b1 == 0 && b2 != 0)
    || (j == 3 && b0 == 0 && b1 == 0 && b2 == 0 && b3 != 0)
  }

  predicate LastOf4(j: int, b0: bv8, b1: bv8, b2: bv8, b3: bv8) {
    || (j == 0 && b1 == 0 && b2 == 0 && b3 == 0 && b0 != 0)
    || (j == 1 && b2 == 0 && b3 == 0 && b1 != 0)
    || (j == 2 && b3 == 0 && b2 != 0)
    || (j == 3 && b3 != 0)
  }

  // the z bytes at the top, or at the bottom, are zero
  predicate TopZero(z: int, b0: bv8, b1: bv8, b2: bv8, b3: bv8, b4: bv8, b5: bv8, b6: bv8, b7: bv8) {
    && (z >= 1 ==> b7 == 0) && (z >= 2 ==> b6 == 0) && (z >= 3 ==> b5 == 0) && (z >= 4 ==> b4 == 0)
    && (z >= 5 ==> b3 == 0) && (z >= 6 ==> b2 == 0) && (z >= 7 ==> b1 == 0) && (z >= 8 ==> b0 == 0)
  }

  predicate BottomZero(z: int, b0: bv8, b1: bv8, b2: bv8, b3: bv8, b4: bv8, b5: bv8, b6: bv8, b7: bv8) {
    && (z >= 1 ==> b0 == 0) && (z >= 2 ==> b1 == 0) && (z >= 3 ==> b2 == 0) && (z >= 4 ==> b3 == 0)
    && (z >= 5 ==> b4 == 0) && (z >= 6 ==> b5 == 0) && (z >= 7 ==> b6 == 0) && (z >= 8 ==> b7 == 0)
  }

  lemma NotAllZero(b0: bv8, b1: bv8, b2: bv8, b3: bv8, b4: bv8, b5: bv8, b6: bv8, b7: bv8, z: int)
    requires Pack64(b0, b1, b2, b3, b4, b5, b6, b7) != 0
    ensures TopZero(z, b0, b1, b2, b3, b4, b5, b6, b7) ==> z < 8
    ensures BottomZero(z, b0, b1, b2, b3, b4, b5, b6, b7) ==> z < 8
  {
    PackZero64(b0, b1, b2, b3, b4, b5, b6, b7);
  }

  // on a plain word, so that the count is not unfolded over packed bytes
  lemma CtzStepOf(x: bv64, low: bv64, rest: bv64)
    requires x != 0 && x & 0xFF == low && x >> 8 == rest
    ensures low != 0 ==> Ctz64(x) < 8
    ensures low == 0 ==> rest != 0 && Ctz64(x) == 8 + Ctz64(rest)
  {
    if low != 0 { CtzBelow8(x); } else { CtzSkip8(x); }
  }

  lemma CtzStep(b0: bv8, b1: bv8, b2: bv8, b3: bv8, b4: bv8, b5: bv8, b6: bv8, b7: bv8)
    requires Pack64(b0, b1, b2, b3, b4, b5, b6, b7) != 0
    ensures b0 != 0 ==> Ctz64(Pack64(b0, b1, b2, b3, b4, b5, b6, b7)) < 8
    ensures b0 == 0 ==>
      var rest := Pack64(b1, b2, b3, b4, b5, b6, b7, 0);
      rest != 0 && Ctz64(Pack64(b0, b1, b2, b3, b4, b5, b6, b7)) == 8 + Ctz64(rest)
  {
    PackLow64(b0, b1, b2, b3, b4, b5, b6, b7);
    PackDown64(b0, b1, b2, b3, b4, b5, b6, b7);
    WidenByte(b0);
    CtzStepOf(Pack64(b0, b1, b2, b3, b4, b5, b6, b7), b0 as bv64, Pack64(b1, b2, b3, b4, b5, b6, b7, 0));
  }

  /** Trailing zero bits divided by eight: the first non-zero byte. */
  lemma {:induction false} CtzFindsByte(b0: bv8, b1: bv8, b2: bv8, b3: bv8, b4: bv8, b5: bv8, b6: bv8, b7: bv8, z: nat)
    requires TopZero(z, b0, b1, b2, b3, b4, b5, b6, b7) && Pack64(b0, b1, b2, b3, b4, b5, b6, b7) != 0
    ensures FirstOf8(Ctz64(Pack64(b0, b1, b2, b3, b4, b5, b6, b7)) / 8, b0, b1, b2, b3, b4, b5, b6, b7)
    decreases 8 - z
  {
    NotAllZero(b0, b1, b2, b3, b4, b5, b6, b7, z);
    CtzStep(b0, b1, b2, b3, b4, b5, b6, b7);
    if b0 == 0 {
      CtzFindsByte(b1, b2, b3, b4, b5, b6, b7, 0, z + 1);
    }
  }

  lemma ClzStepOf(x: bv64, high: bv64, rest: bv64)
    requires x != 0 && x >> 56 == high && x << 8 == rest
    ensures high != 0 ==> Clz64(x) < 8
    ensures high == 0 ==> rest != 0 && Clz64(x) == 8 + Clz64(rest)
  {
    if high != 0 { ClzBelow8(x); } else { ClzSkip8(x); }
  }

  lemma ClzStep(b0: bv8, b1: bv8, b2: bv8, b3: bv8, b4: bv8, b5: bv8, b6: bv8, b7: bv8)
    requires Pack64(b0, b1, b2, b3, b4, b5, b6, b7) != 0
    ensures b7 != 0 ==> Clz64(Pack64(b0, b1, b2, b3, b4, b5, b6, b7)) < 8
    ensures b7 == 0 ==>
      var rest := Pack64(0, b0, b1, b2, b3, b4, b5, b6);
      rest != 0 && Clz64(Pack64(b0, b1, b2, b3, b4, b5, b6, b7)) == 8 + Clz64(rest)
  {
    PackHigh64(b0, b1, b2, b3, b4, b5, b6, b7);
    PackUp64(b0, b1, b2, b3, b4, b5, b6, b7);
    WidenByte(b7);
    ClzStepOf(Pack64(b0, b1, b2, b3, b4, b5, b6, b7), b7 as bv64, Pack64(0, b0, b1, b2, b3, b4, b5, b6));
  }

  /** Leading zero bits divided by eight: the last non-zero byte, counted from the top. */
  lemma {:induction false} ClzFindsByte(b0: bv8, b1: bv8, b2: bv8, b3: bv8, b4: bv8, b5: bv8, b6: bv8, b7: bv8, z: nat)
    requires BottomZero(z, b0, b1, b2, b3, b4, b5, b6, b7) && Pack64(b0, b1, b2, b3, b4, b5, b6, b7) != 0
    ensures LastOf8(7 - Clz64(Pack64(b0, b1, b2, b3, b4, b5, b6, b7)) / 8, b0, b1, b2, b3, b4, b5, b6, b7)
    decreases 8 - z
  {
    NotAllZero(b0, b1, b2, b3, b4, b5, b6, b7, z);
    ClzStep(b0, b1, b2, b3, b4, b5, b6, b7);
    if b7 == 0 {
      ClzFindsByte(0, b0, b1, b2, b3, b4, b5, b6, z + 1);
    }
  }

  lemma FirstByteOf4(b0: bv8, b1: bv8, b2: bv8, b3: bv8, j: int)
    requires FirstByteIs(Pack32(b0, b1, b2, b3), j)
    ensures FirstOf4(j, b0, b1, b2, b3)
  {
  }

  lemma LastByteOf4(b0: bv8, b1: bv8, b2: bv8, b3: bv8, j: int)
    requires LastByteIs(Pack32(b0, b1, b2, b3), j)
    ensures LastOf4(j, b0, b1, b2, b3)
  {
  }

  lemma NtzPointsAt(b0: bv8, b1: bv8, b2: bv8, b3: bv8)
    requires Pack32(b0, b1, b2, b3) != 0
    ensures FirstOf4(Ntz(Pack32(b0, b1, b2, b3)) / 8, b0, b1, b2, b3)
  {
    var x := Pack32(b0, b1, b2, b3);
    NtzFindsByte(x);
    FirstByteOf4(b0, b1, b2, b3, Ntz(x) / 8);
  }

  lemma NlzPointsAt(b0: bv8, b1: bv8, b2: bv8, b3: bv8)
    requires Pack32(b0, b1, b2, b3) != 0
    ensures LastOf4(3 - Nlz(Pack32(b0, b1, b2, b3)) / 8, b0, b1, b2, b3)
  {
    var x := Pack32(b0, b1, b2, b3);
    NlzFindsByte(x);
    LastByteOf4(b0, b1, b2, b3, 3 - Nlz(x) / 8);
  }

  // ---------- searching one word ----------

  /** The x86-64 test of one word for a first hit (src/utf8.c:15-22, src/bitutils.c:61-67). */
  method FirstInWord64(probe: Probe, b0: bv8, b1: bv8, b2: bv8, b3: bv8, b4: bv8, b5: bv8, b6: bv8, b7: bv8)
      returns (found: bool, offset: nat)
    ensures found ==>
      FirstOf8(offset, Test(probe, b0), Test(probe, b1), Test(probe, b2), Test(probe, b3),
               Test(probe, b4), Test(probe, b5), Test(probe, b6), Test(probe, b7))
    ensures !found ==>
      && Test(probe, b0) == Test(probe, b1) == Test(probe, b2) == Test(probe, b3) == 0
      && Test(probe, b4) == Test(probe, b5) == Test(probe, b6) == Test(probe, b7) == 0
  {
    var maskedval := Masked64(probe, Pack64(b0, b1, b2, b3, b4, b5, b6, b7));
    MaskedBytes64(probe, b0, b1, b2, b3, b4, b5, b6, b7);
    PackZero64(Test(probe, b0), Test(probe, b1), Test(probe, b2), Test(probe, b3),
               Test(probe, b4), Test(probe, b5), Test(probe, b6), Test(probe, b7));
    found, offset := maskedval != 0, 0;
    if found {
      offset := Ctz64(maskedval) / 8;
      CtzFindsByte(Test(probe, b0), Test(probe, b1), Test(probe, b2), Test(probe, b3),
                   Test(probe, b4), Test(probe, b5), Test(probe, b6), Test(probe, b7), 0);
    }
  }

  /** The x86-64 test of one word for a last hit (src/bitutils.c:109-115). */
  method LastInWord64(probe: Probe, b0: bv8, b1: bv8, b2: bv8, b3: bv8, b4: bv8, b5: bv8, b6: bv8, b7: bv8)
      returns (found: bool, offset: int)
    ensures found ==>
      LastOf8(7 - offset, Test(probe, b0), Test(probe, b1), Test(probe, b2), Test(probe, b3),
              Test(probe, b4), Test(probe, b5), Test(probe, b6), Test(probe, b7))
    ensures !found ==>
      && Test(probe, b0) == Test(probe, b1) == Test(probe, b2) == Test(probe, b3) == 0
      && Test(probe, b4) == Test(probe, b5) == Test(probe, b6) == Test(probe, b7) == 0
  {
    var maskedval := Masked64(probe, Pack64(b0, b1, b2, b3, b4, b5, b6, b7));
    MaskedBytes64(probe, b0, b1, b2, b3, b4, b5, b6, b7);
    PackZero64(Test(probe, b0), Test(probe, b1), Test(probe, b2), Test(probe, b3),
               Test(probe, b4), Test(probe, b5), Test(probe, b6), Test(probe, b7));
    found, offset := maskedval != 0, 0;
    if found {
      offset := Clz64(maskedval) / 8;
      ClzFindsByte(Test(probe, b0), Test(probe, b1), Test(probe, b2), Test(probe, b3),
                   Test(probe, b4), Test(probe, b5), Test(probe, b6), Test(probe, b7), 0);
    }
  }

  /** The 32-bit test of one word for a first hit (src/utf8.c:50-58, src/bitutils.c:134-142). */
  method FirstInWord32(probe: Probe, b0: bv8, b1: bv8, b2: bv8, b3: bv8) returns (found: bool, offset: int)
    ensures found ==> FirstOf4(offset, Test(probe, b0), Test(probe, b1), Test(probe, b2), Test(probe, b3))
    ensures !found ==> Test(probe, b0) == Test(probe, b1) == Test(probe, b2) == Test(probe, b3) == 0
  {
    var maskedval := Masked32(probe, Pack32(b0, b1, b2, b3));
    MaskedBytes32(probe, b0, b1, b2, b3);
    PackZero32(Test(probe, b0), Test(probe, b1), Test(probe, b2), Test(probe, b3));
    found, offset := maskedval != 0, 0;
    if found {
      offset := Ntz(maskedval) / 8;
      NtzPointsAt(Test(probe, b0), Test(probe, b1), Test(probe, b2), Test(probe, b3));
    }
  }

  /** The 32-bit test of one word for a last hit (src/bitutils.c:185-191). */
  method LastInWord32(probe: Probe, b0: bv8, b1: bv8, b2: bv8, b3: bv8) returns (found: bool, offset: int)
    ensures found ==> LastOf4(3 - offset, Test(probe, b0), Test(probe, b1), Test(probe, b2), Test(probe, b3))
    ensures !found ==> Test(probe, b0) == Test(probe, b1) == Test(probe, b2) == Test(probe, b3) == 0
  {
    var maskedval := Masked32(probe, Pack32(b0, b1, b2, b3));
    MaskedBytes32(probe, b0, b1, b2, b3);
    PackZero32(Test(probe, b0), Test(probe, b1), Test(probe, b2), Test(probe, b3));
    found, offset := maskedval != 0, 0;
    if found {
      offset := Nlz(maskedval) / 8;
      NlzPointsAt(Test(probe, b0), Test(probe, b1), Test(probe, b2), Test(probe, b3));
    }
  }
}
