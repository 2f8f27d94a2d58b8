/** Counting leading and trailing zeros: by multiplication or modulo and a table, as nlz and ntz
    of src/bitutils.c do, and by the compiler's builtins, as the x86-64 build does. */
module BitUtils {
  const NONE := 255

  /** The table of nlz (src/bitutils.c:6-11); NONE marks entries no word leads to. */
  function NlzTable(i: bv6): int {
    match i
    case 0 => 32 case 1 => 20 case 2 => 19 case 3 => 255 case 4 => 255 case 5 => 18 case 6 => 255 case 7 => 7
    case 8 => 10 case 9 => 17 case 10 => 255 case 11 => 255 case 12 => 14 case 13 => 255 case 14 => 6 case 15 => 255
    case 16 => 255 case 17 => 9 case 18 => 255 case 19 => 16 case 20 => 255 case 21 => 255 case 22 => 1 case 23 => 26
    case 24 => 255 case 25 => 13 case 26 => 255 case 27 => 255 case 28 => 24 case 29 => 5 case 30 => 255 case 31 => 255
    case 32 => 255 case 33 => 21 case 34 => 255 case 35 => 8 case 36 => 11 case 37 => 255 case 38 => 15 case 39 => 255
    case 40 => 255 case 41 => 255 case 42 => 255 case 43 => 2 case 44 => 27 case 45 => 0 case 46 => 25 case 47 => 255
    case 48 => 22 case 49 => 255 case 50 => 12 case 51 => 255 case 52 => 255 case 53 => 3 case 54 => 28 case 55 => 255
    case 56 => 23 case 57 => 255 case 58 => 4 case 59 => 29 case 60 => 255 case 61 => 255 case 62 => 30 case 63 => 31
    case _ => NONE
  }

  /** The table of ntz (src/bitutils.c:25-28). */
  function NtzTable(i: bv32): int {
    match i
    case 0 => 32 case 1 => 0 case 2 => 1 case 3 => 26 case 4 => 2 case 5 => 23 case 6 => 27 case 7 => 255
    case 8 => 3 case 9 => 16 case 10 => 24 case 11 => 30 case 12 => 28 case 13 => 11 case 14 => 255 case 15 => 13
    case 16 => 4 case 17 => 7 case 18 => 17 case 19 => 255 case 20 => 25 case 21 => 22 case 22 => 31 case 23 => 15
    case 24 => 29 case 25 => 10 case 26 => 12 case 27 => 6 case 28 => 255 case 29 => 21 case 30 => 14 case 31 => 9
    case 32 => 5 case 33 => 20 case 34 => 8 case 35 => 19 case 36 => 18
    case _ => NONE
  }

  function Smear(x0: bv32): bv32 {
    var x := x0 | (x0 >> 1);
    var x := x | (x >> 2);
    var x := x | (x >> 4);
    var x := x | (x >> 8);
    x & !(x >> 16)
  }

  // (x * 0xfd7049ff) >> 26
  function NlzIndex(y: bv32): bv6 {
    ((y * 0xfd70_49ff) >> 26) as bv6
  }

  /** nlz (src/bitutils.c:3-20). */
  function Nlz(x: bv32): int {
    NlzTable(NlzIndex(Smear(x)))
  }

  /** ntz (src/bitutils.c:22-32). */
  function Ntz(x: bv32): int {
    NtzTable((x & (0 - x)) % 37)
  }

  /** t is the lowest set bit of x. */
  predicate LowBit(x: bv32, t: bv32) {
    t != 0 && t & (t - 1) == 0 && x & ((t - 1) | t) == t
  }

  /** t is the highest set bit of x. */
  predicate TopBit(x: bv32, t: bv32) {
    t != 0 && t & (t - 1) == 0 && x & t == t && x <= ((t - 1) | t)
  }

  lemma LowBitIs(x: bv32)
    requires x != 0
    ensures LowBit(x, x & (0 - x))
  {
  }

  lemma SmearOfTop(x: bv32, t: bv32)
    requires TopBit(x, t)
    ensures Smear(x) == Smear(t)
  {
  }

  /** The word with only bit k set. */
  function Bit(k: int): bv32
    requires 0 <= k < 32
  {
    match k
    case 0 => 0x1 case 1 => 0x2 case 2 => 0x4 case 3 => 0x8
    case 4 => 0x10 case 5 => 0x20 case 6 => 0x40 case 7 => 0x80
    case 8 => 0x100 case 9 => 0x200 case 10 => 0x400 case 11 => 0x800
    case 12 => 0x1000 case 13 => 0x2000 case 14 => 0x4000 case 15 => 0x8000
    case 16 => 0x10000 case 17 => 0x20000 case 18 => 0x40000 case 19 => 0x80000
    case 20 => 0x100000 case 21 => 0x200000 case 22 => 0x400000 case 23 => 0x800000
    case 24 => 0x1000000 case 25 => 0x2000000 case 26 => 0x4000000 case 27 => 0x8000000
    case 28 => 0x10000000 case 29 => 0x20000000 case 30 => 0x40000000 case _ => 0x80000000
  }

  lemma PowerIsBit(t: bv32) returns (k: int)
    requires t != 0 && t & (t - 1) == 0
    ensures 0 <= k < 32 && t == Bit(k)
  {
    if t == 0x1 { k := 0; }
    else if t == 0x2 { k := 1; }
    else if t == 0x4 { k := 2; }
    else if t == 0x8 { k := 3; }
    else if t == 0x10 { k := 4; }
    else if t == 0x20 { k := 5; }
    else if t == 0x40 { k := 6; }
    else if t == 0x80 { k := 7; }
    else if t == 0x100 { k := 8; }
    else if t == 0x200 { k := 9; }
    else if t == 0x400 { k := 10; }
    else if t == 0x800 { k := 11; }
    else if t == 0x1000 { k := 12; }
    else if t == 0x2000 { k := 13; }
    else if t == 0x4000 { k := 14; }
    else if t == 0x8000 { k := 15; }
    else if t == 0x10000 { k := 16; }
    else if t == 0x20000 { k := 17; }
    else if t == 0x40000 { k := 18; }
    else if t == 0x80000 { k := 19; }
    else if t == 0x100000 { k := 20; }
    else if t == 0x200000 { k := 21; }
    else if t == 0x400000 { k := 22; }
    else if t == 0x800000 { k := 23; }
    else if t == 0x1000000 { k := 24; }
    else if t == 0x2000000 { k := 25; }
    else if t == 0x4000000 { k := 26; }
    else if t == 0x8000000 { k := 27; }
    else if t == 0x10000000 { k := 28; }
    else if t == 0x20000000 { k := 29; }
    else if t == 0x40000000 { k := 30; }
    else { k := 31; }
  }

  /** k zeros below the lowest one. */
  ghost predicate TrailingZeros(x: bv32, k: int) {
    0 <= k < 32 && x & (Bit(k) - 1) == 0 && x & Bit(k) != 0
  }

  ghost predicate HighestAt(x: bv32, place: int) {
    0 <= place < 32 && x & Bit(place) != 0 && x & !((Bit(place) - 1) | Bit(place)) == 0
  }

  /** k zeros above the highest one. */
  ghost predicate LeadingZeros(x: bv32, k: int) {
    0 <= k < 32 && HighestAt(x, 31 - k)
  }

  lemma NtzWords0()
    ensures Ntz(0x1) == 0
    ensures Ntz(0x2) == 1
    ensures Ntz(0x4) == 2
    ensures Ntz(0x8) == 3
    ensures Ntz(0x10) == 4
    ensures Ntz(0x20) == 5
    ensures Ntz(0x40) == 6
    ensures Ntz(0x80) == 7
  {
  }

  lemma NtzWords8()
    ensures Ntz(0x100) == 8
    ensures Ntz(0x200) == 9
    ensures Ntz(0x400) == 10
    ensures Ntz(0x800) == 11
    ensures Ntz(0x1000) == 12
    ensures Ntz(0x2000) == 13
    ensures Ntz(0x4000) == 14
    ensures Ntz(0x8000) == 15
  {
  }

  lemma NtzWords16()
    ensures Ntz(0x10000) == 16
    ensures Ntz(0x20000) == 17
    ensures Ntz(0x40000) == 18
    ensures Ntz(0x80000) == 19
    ensures Ntz(0x100000) == 20
    ensures Ntz(0x200000) == 21
    ensures Ntz(0x400000) == 22
    ensures Ntz(0x800000) == 23
  {
  }

  lemma NtzWords24()
    ensures Ntz(0x1000000) == 24
    ensures Ntz(0x2000000) == 25
    ensures Ntz(0x4000000) == 26
    ensures Ntz(0x8000000) == 27
    ensures Ntz(0x10000000) == 28
    ensures Ntz(0x20000000) == 29
    ensures Ntz(0x40000000) == 30
    ensures Ntz(0x80000000) == 31
  {
  }

  lemma NtzOfBit(k: int)
    requires 0 <= k < 32
    ensures Ntz(Bit(k)) == k
  {
    NtzWords0(); NtzWords8(); NtzWords16(); NtzWords24();
    match k {
      case 0 => assert Bit(0) == 0x1;
      case 1 => assert Bit(1) == 0x2;
      case 2 => assert Bit(2) == 0x4;
      case 3 => assert Bit(3) == 0x8;
      case 4 => assert Bit(4) == 0x10;
      case 5 => assert Bit(5) == 0x20;
      case 6 => assert Bit(6) == 0x40;
      case 7 => assert Bit(7) == 0x80;
      case 8 => assert Bit(8) == 0x100;
      case 9 => assert Bit(9) == 0x200;
      case 10 => assert Bit(10) == 0x400;
      case 11 => assert Bit(11) == 0x800;
      case 12 => assert Bit(12) == 0x1000;
      case 13 => assert Bit(13) == 0x2000;
      case 14 => assert Bit(14) == 0x4000;
      case 15 => assert Bit(15) == 0x8000;
      case 16 => assert Bit(16) == 0x10000;
      case 17 => assert Bit(17) == 0x20000;
      case 18 => assert Bit(18) == 0x40000;
      case 19 => assert Bit(19) == 0x80000;
      case 20 => assert Bit(20) == 0x100000;
      case 21 => assert Bit(21) == 0x200000;
      case 22 => assert Bit(22) == 0x400000;
      case 23 => assert Bit(23) == 0x800000;
      case 24 => assert Bit(24) == 0x1000000;
      case 25 => assert Bit(25) == 0x2000000;
      case 26 => assert Bit(26) == 0x4000000;
      case 27 => assert Bit(27) == 0x8000000;
      case 28 => assert Bit(28) == 0x10000000;
      case 29 => assert Bit(29) == 0x20000000;
      case 30 => assert Bit(30) == 0x40000000;
      case _ => assert Bit(31) == 0x80000000;
    }
  }

  lemma SmearWords()
    ensures Smear(0x1) == 0x1
    ensures Smear(0x2) == 0x3
    ensures Smear(0x4) == 0x7
    ensures Smear(0x8) == 0xf
    ensures Smear(0x10) == 0x1f
    ensures Smear(0x20) == 0x3f
    ensures Smear(0x40) == 0x7f
    ensures Smear(0x80) == 0xff
    ensures Smear(0x100) == 0x1ff
    ensures Smear(0x200) == 0x3ff
    ensures Smear(0x400) == 0x7ff
    ensures Smear(0x800) == 0xfff
    ensures Smear(0x1000) == 0x1fff
    ensures Smear(0x2000) == 0x3fff
    ensures Smear(0x4000) == 0x7fff
    ensures Smear(0x8000) == 0xffff
    ensures Smear(0x10000) == 0x1fffe
    ensures Smear(0x20000) == 0x3fffc
    ensures Smear(0x40000) == 0x7fff8
    ensures Smear(0x80000) == 0xffff0
    ensures Smear(0x100000) == 0x1fffe0
    ensures Smear(0x200000) == 0x3fffc0
    ensures Smear(0x400000) == 0x7fff80
    ensures Smear(0x800000) == 0xffff00
    ensures Smear(0x1000000) == 0x1fffe00
    ensures Smear(0x2000000) == 0x3fffc00
    ensures Smear(0x4000000) == 0x7fff800
    ensures Smear(0x8000000) == 0xffff000
    ensures Smear(0x10000000) == 0x1fffe000
    ensures Smear(0x20000000) == 0x3fffc000
    ensures Smear(0x40000000) == 0x7fff8000
    ensures Smear(0x80000000) == 0xffff0000
  {
  }

  lemma NlzIndexWords()
    ensures NlzIndex(0x1) == 63
    ensures NlzIndex(0x3) == 62
    ensures NlzIndex(0x7) == 59
    ensures NlzIndex(0xf) == 54
    ensures NlzIndex(0x1f) == 44
    ensures NlzIndex(0x3f) == 23
    ensures NlzIndex(0x7f) == 46
    ensures NlzIndex(0xff) == 28
    ensures NlzIndex(0x1ff) == 56
    ensures NlzIndex(0x3ff) == 48
    ensures NlzIndex(0x7ff) == 33
    ensures NlzIndex(0xfff) == 1
    ensures NlzIndex(0x1fff) == 2
    ensures NlzIndex(0x3fff) == 5
    ensures NlzIndex(0x7fff) == 9
    ensures NlzIndex(0xffff) == 19
    ensures NlzIndex(0x1fffe) == 38
    ensures NlzIndex(0x3fffc) == 12
    ensures NlzIndex(0x7fff8) == 25
    ensures NlzIndex(0xffff0) == 50
    ensures NlzIndex(0x1fffe0) == 36
    ensures NlzIndex(0x3fffc0) == 8
    ensures NlzIndex(0x7fff80) == 17
    ensures NlzIndex(0xffff00) == 35
    ensures NlzIndex(0x1fffe00) == 7
    ensures NlzIndex(0x3fffc00) == 14
    ensures NlzIndex(0x7fff800) == 29
    ensures NlzIndex(0xffff000) == 58
    ensures NlzIndex(0x1fffe000) == 53
    ensures NlzIndex(0x3fffc000) == 43
    ensures NlzIndex(0x7fff8000) == 22
    ensures NlzIndex(0xffff0000) == 45
  {
  }

  lemma NlzWords0()
    ensures Nlz(0x1) == 31
    ensures Nlz(0x2) == 30
    ensures Nlz(0x4) == 29
    ensures Nlz(0x8) == 28
    ensures Nlz(0x10) == 27
    ensures Nlz(0x20) == 26
    ensures Nlz(0x40) == 25
    ensures Nlz(0x80) == 24
  {
    SmearWords();
    NlzIndexWords();
  }

  lemma NlzWords8()
    ensures Nlz(0x100) == 23
    ensures Nlz(0x200) == 22
    ensures Nlz(0x400) == 21
    ensures Nlz(0x800) == 20
    ensures Nlz(0x1000) == 19
    ensures Nlz(0x2000) == 18
    ensures Nlz(0x4000) == 17
    ensures Nlz(0x8000) == 16
  {
    SmearWords();
    NlzIndexWords();
  }

  lemma NlzWords16()
    ensures Nlz(0x10000) == 15
    ensures Nlz(0x20000) == 14
    ensures Nlz(0x40000) == 13
    ensures Nlz(0x80000) == 12
    ensures Nlz(0x100000) == 11
    ensures Nlz(0x200000) == 10
    ensures Nlz(0x400000) == 9
    ensures Nlz(0x800000) == 8
  {
    SmearWords();
    NlzIndexWords();
  }

  lemma NlzWords24()
    ensures Nlz(0x1000000) == 7
    ensures Nlz(0x2000000) == 6
    ensures Nlz(0x4000000) == 5
    ensures Nlz(0x8000000) == 4
    ensures Nlz(0x10000000) == 3
    ensures Nlz(0x20000000) == 2
    ensures Nlz(0x40000000) == 1
    ensures Nlz(0x80000000) == 0
  {
    SmearWords();
    NlzIndexWords();
  }

  lemma NlzOfBit(k: int)
    requires 0 <= k < 32
    ensures Nlz(Bit(k)) == 31 - k
  {
    NlzWords0(); NlzWords8(); NlzWords16(); NlzWords24();
    match k {
      case 0 => assert Bit(0) == 0x1;
      case 1 => assert Bit(1) == 0x2;
      case 2 => assert Bit(2) == 0x4;
      case 3 => assert Bit(3) == 0x8;
      case 4 => assert Bit(4) == 0x10;
      case 5 => assert Bit(5) == 0x20;
      case 6 => assert Bit(6) == 0x40;
      case 7 => assert Bit(7) == 0x80;
      case 8 => assert Bit(8) == 0x100;
      case 9 => assert Bit(9) == 0x200;
      case 10 => assert Bit(10) == 0x400;
      case 11 => assert Bit(11) == 0x800;
      case 12 => assert Bit(12) == 0x1000;
      case 13 => assert Bit(13) == 0x2000;
      case 14 => assert Bit(14) == 0x4000;
      case 15 => assert Bit(15) == 0x8000;
      case 16 => assert Bit(16) == 0x10000;
      case 17 => assert Bit(17) == 0x20000;
      case 18 => assert Bit(18) == 0x40000;
      case 19 => assert Bit(19) == 0x80000;
      case 20 => assert Bit(20) == 0x100000;
      case 21 => assert Bit(21) == 0x200000;
      case 22 => assert Bit(22) == 0x400000;
      case 23 => assert Bit(23) == 0x800000;
      case 24 => assert Bit(24) == 0x1000000;
      case 25 => assert Bit(25) == 0x2000000;
      case 26 => assert Bit(26) == 0x4000000;
      case 27 => assert Bit(27) == 0x8000000;
      case 28 => assert Bit(28) == 0x10000000;
      case 29 => assert Bit(29) == 0x20000000;
      case 30 => assert Bit(30) == 0x40000000;
      case _ => assert Bit(31) == 0x80000000;
    }
  }

  lemma LowBitAlone(x: bv32)
    ensures (x & (0 - x)) & (0 - (x & (0 - x))) == x & (0 - x)
  {
  }

  lemma NtzSeesLowBit(x: bv32) returns (t: bv32)
    requires x != 0
    ensures LowBit(x, t) && Ntz(x) == Ntz(t)
  {
    t := x & (0 - x);
    LowBitIs(x);
    LowBitAlone(x);
  }

  lemma BelowLowBit(x: bv32, t: bv32)
    requires LowBit(x, t)
    ensures x & (t - 1) == 0 && x & t != 0
  {
  }

  /** ntz is right for all words. */
  lemma NtzCounts(x: bv32)
    ensures if x == 0 then Ntz(x) == 32 else TrailingZeros(x, Ntz(x))
  {
    if x != 0 {
      var t := NtzSeesLowBit(x);
      var k := PowerIsBit(t);
      NtzOfBit(k);
      BelowLowBit(x, t);
    }
  }

  lemma HighestBit(x: bv32) returns (t: bv32)
    requires x != 0
    ensures TopBit(x, t)
  {
    var y := x | (x >> 1);
    y := y | (y >> 2);
    y := y | (y >> 4);
    y := y | (y >> 8);
    y := y | (y >> 16);
    t := y & !(y >> 1);
  }

  lemma NlzSeesTopBit(x: bv32) returns (t: bv32)
    requires x != 0
    ensures TopBit(x, t) && Nlz(x) == Nlz(t)
  {
    t := HighestBit(x);
    SmearOfTop(x, t);
  }

  lemma AboveTopBit(x: bv32, t: bv32)
    requires TopBit(x, t)
    ensures x & t != 0 && x & !((t - 1) | t) == 0
  {
  }

  /** nlz is right for all words. */
  lemma NlzCounts(x: bv32)
    ensures if x == 0 then Nlz(x) == 32 else LeadingZeros(x, Nlz(x))
  {
    if x != 0 {
      var t := NlzSeesTopBit(x);
      var k := PowerIsBit(t);
      NlzOfBit(k);
      AboveTopBit(x, t);
    }
  }

  // ---------- the compiler's counts for 64-bit words ----------

  /** __builtin_ctzll: trailing zeros of a non-zero word. */
  function Ctz64(x: bv64): nat
    requires x != 0
    decreases x
  {
    if x & 1 == 1 then 0 else 1 + Ctz64(x >> 1)
  }

  /** __builtin_clzll: leading zeros of a non-zero word. */
  function Clz64(x: bv64): nat
    requires x != 0
    decreases 0xFFFF_FFFF_FFFF_FFFF - x
  {
    if x >> 63 == 1 then 0 else 1 + Clz64(x << 1)
  }

  lemma CtzSkip1(x: bv64)
    requires x != 0 && x & 1 == 0
    ensures x >> 1 != 0 && Ctz64(x) == 1 + Ctz64(x >> 1)
  {
  }

  lemma CtzBelow1(x: bv64)
    requires x & 1 != 0
    ensures x != 0 && Ctz64(x) < 1
  {
    assert x & 1 == 1;
  }

  lemma CtzSkip2(x: bv64)
    requires x != 0 && x & 0x3 == 0
    ensures x >> 2 != 0 && Ctz64(x) == 2 + Ctz64(x >> 2)
  {
    CtzSkip1(x);
    assert (x >> 1) & 0x1 == 0 && (x >> 1) >> 1 == x >> 2;
    CtzSkip1(x >> 1);
  }

  lemma CtzBelow2(x: bv64)
    requires x & 0x3 != 0
    ensures x != 0 && Ctz64(x) < 2
  {
    if x & 0x1 != 0 {
      CtzBelow1(x);
    } else {
      CtzSkip1(x);
      assert (x >> 1) & 0x1 != 0;
      CtzBelow1(x >> 1);
    }
  }

  lemma CtzSkip4(x: bv64)
    requires x != 0 && x & 0xf == 0
    ensures x >> 4 != 0 && Ctz64(x) == 4 + Ctz64(x >> 4)
  {
    CtzSkip2(x);
    assert (x >> 2) & 0x3 == 0 && (x >> 2) >> 2 == x >> 4;
    CtzSkip2(x >> 2);
  }

  lemma CtzBelow4(x: bv64)
    requires x & 0xf != 0
    ensures x != 0 && Ctz64(x) < 4
  {
    if x & 0x3 != 0 {
      CtzBelow2(x);
    } else {
      CtzSkip2(x);
      assert (x >> 2) & 0x3 != 0;
      CtzBelow2(x >> 2);
    }
  }

  lemma CtzSkip8(x: bv64)
    requires x != 0 && x & 0xff == 0
    ensures x >> 8 != 0 && Ctz64(x) == 8 + Ctz64(x >> 8)
  {
    CtzSkip4(x);
    assert (x >> 4) & 0xf == 0 && (x >> 4) >> 4 == x >> 8;
    CtzSkip4(x >> 4);
  }

  lemma CtzBelow8(x: bv64)
    requires x & 0xff != 0
    ensures x != 0 && Ctz64(x) < 8
  {
    if x & 0xf != 0 {
      CtzBelow4(x);
    } else {
      CtzSkip4(x);
      assert (x >> 4) & 0xf != 0;
      CtzBelow4(x >> 4);
    }
  }

  lemma ClzSkip1(x: bv64)
    requires x != 0 && x >> 63 == 0
    ensures x << 1 != 0 && Clz64(x) == 1 + Clz64(x << 1)
  {
  }

  lemma ClzBelow1(x: bv64)
    requires x >> 63 != 0
    ensures x != 0 && Clz64(x) < 1
  {
    assert x >> 63 == 1;
  }

  lemma ClzSkip2(x: bv64)
    requires x != 0 && x >> 62 == 0
    ensures x << 2 != 0 && Clz64(x) == 2 + Clz64(x << 2)
  {
    ClzSkip1(x);
    assert (x << 1) >> 63 == 0 && (x << 1) << 1 == x << 2;
    ClzSkip1(x << 1);
  }

  lemma ClzBelow2(x: bv64)
    requires x >> 62 != 0
    ensures x != 0 && Clz64(x) < 2
  {
    if x >> 63 != 0 {
      ClzBelow1(x);
    } else {
      ClzSkip1(x);
      assert (x << 1) >> 63 != 0;
      ClzBelow1(x << 1);
    }
  }

  lemma ClzSkip4(x: bv64)
    requires x != 0 && x >> 60 == 0
    ensures x << 4 != 0 && Clz64(x) == 4 + Clz64(x << 4)
  {
    ClzSkip2(x);
    assert (x << 2) >> 62 == 0 && (x << 2) << 2 == x << 4;
    ClzSkip2(x << 2);
  }

  lemma ClzBelow4(x: bv64)
    requires x >> 60 != 0
    ensures x != 0 && Clz64(x) < 4
  {
    if x >> 62 != 0 {
      ClzBelow2(x);
    } else {
      ClzSkip2(x);
      assert (x << 2) >> 62 != 0;
      ClzBelow2(x << 2);
    }
  }

  lemma ClzSkip8(x: bv64)
    requires x != 0 && x >> 56 == 0
    ensures x << 8 != 0 && Clz64(x) == 8 + Clz64(x << 8)
  {
    ClzSkip4(x);
    assert (x << 4) >> 60 == 0 && (x << 4) << 4 == x << 8;
    ClzSkip4(x << 4);
  }

  lemma ClzBelow8(x: bv64)
    requires x >> 56 != 0
    ensures x != 0 && Clz64(x) < 8
  {
    if x >> 60 != 0 {
      ClzBelow4(x);
    } else {
      ClzSkip4(x);
      assert (x << 4) >> 60 != 0;
      ClzBelow4(x << 4);
    }
  }

  // ---------- which byte a count points at ----------

  predicate IsPower(t: bv32) {
    t != 0 && t & (t - 1) == 0
  }

  /** Bit k lies in byte k / 8. */
  lemma BitInByte0(k: int)
    requires 0 <= k < 8
    ensures Bit(k) & 0xFF == Bit(k) && IsPower(Bit(k))
  {
  }

  lemma BitInByte1(k: int)
    requires 8 <= k < 16
    ensures Bit(k) & 0xFF00 == Bit(k) && IsPower(Bit(k))
  {
  }

  lemma BitInByte2(k: int)
    requires 16 <= k < 24
    ensures Bit(k) & 0xFF_0000 == Bit(k) && IsPower(Bit(k))
  {
  }

  lemma BitInByte3(k: int)
    requires 24 <= k < 32
    ensures Bit(k) & 0xFF00_0000 == Bit(k) && IsPower(Bit(k))
  {
  }

  lemma BytesBelow(x: bv32, t: bv32)
    requires IsPower(t) && x & (t - 1) == 0 && x & t != 0
    ensures t & 0xFF == t ==> x & 0xFF != 0
    ensures t & 0xFF00 == t ==> x & 0xFF == 0 && x & 0xFF00 != 0
    ensures t & 0xFF_0000 == t ==> x & 0xFFFF == 0 && x & 0xFF_0000 != 0
    ensures t & 0xFF00_0000 == t ==> x & 0xFF_FFFF == 0 && x & 0xFF00_0000 != 0
  {
  }

  lemma BytesAbove(x: bv32, t: bv32)
    requires IsPower(t) && x & !((t - 1) | t) == 0 && x & t != 0
    ensures t & 0xFF00_0000 == t ==> x & 0xFF00_0000 != 0
    ensures t & 0xFF_0000 == t ==> x & 0xFF00_0000 == 0 && x & 0xFF_0000 != 0
    ensures t & 0xFF00 == t ==> x & 0xFFFF_0000 == 0 && x & 0xFF00 != 0
    ensures t & 0xFF == t ==> x & 0xFFFF_FF00 == 0 && x & 0xFF != 0
  {
  }

  /** What the bytes of x say about its first non-zero byte. */
  ghost predicate FirstByteIs(x: bv32, j: int) {
    || (j == 0 && x & 0xFF != 0)
    || (j == 1 && x & 0xFF == 0 && x & 0xFF00 != 0)
    || (j == 2 && x & 0xFFFF == 0 && x & 0xFF_0000 != 0)
    || (j == 3 && x & 0xFF_FFFF == 0 && x & 0xFF00_0000 != 0)
  }

  ghost predicate LastByteIs(x: bv32, j: int) {
    || (j == 3 && x & 0xFF00_0000 != 0)
    || (j == 2 && x & 0xFF00_0000 == 0 && x & 0xFF_0000 != 0)
    || (j == 1 && x & 0xFFFF_0000 == 0 && x & 0xFF00 != 0)
    || (j == 0 && x & 0xFFFF_FF00 == 0 && x & 0xFF != 0)
  }

  lemma CountToFirstByte(x: bv32, k: int)
    requires TrailingZeros(x, k)
    ensures FirstByteIs(x, k / 8)
  {
    var t := Bit(k);
    if k < 8 { BitInByte0(k); }
    else if k < 16 { BitInByte1(k); }
    else if k < 24 { BitInByte2(k); }
    else { BitInByte3(k); }
    BytesBelow(x, t);
  }

  lemma TopBitToLastByte(x: bv32, b: int)
    requires HighestAt(x, b)
    ensures LastByteIs(x, b / 8)
  {
    var t := Bit(b);
    if b < 8 { BitInByte0(b); }
    else if b < 16 { BitInByte1(b); }
    else if b < 24 { BitInByte2(b); }
    else { BitInByte3(b); }
    BytesAbove(x, t);
  }

  lemma ByteOfPlace(k: int)
    requires 0 <= k < 32
    ensures (31 - k) / 8 == 3 - k / 8
  {
  }

  lemma CountToLastByte(x: bv32, k: int)
    requires LeadingZeros(x, k)
    ensures LastByteIs(x, 3 - k / 8)
  {
    TopBitToLastByte(x, 31 - k);
    ByteOfPlace(k);
  }

  /** ntz / 8 is the lowest non-zero byte. */
  lemma NtzFindsByte(x: bv32)
    requires x != 0
    ensures FirstByteIs(x, Ntz(x) / 8)
  {
    NtzCounts(x);
    CountToFirstByte(x, Ntz(x));
  }

  /** 3 - nlz / 8 is the highest non-zero byte. */
  lemma NlzFindsByte(x: bv32)
    requires x != 0
    ensures LastByteIs(x, 3 - Nlz(x) / 8)
  {
    NlzCounts(x);
    CountToLastByte(x, Nlz(x));
  }
}
