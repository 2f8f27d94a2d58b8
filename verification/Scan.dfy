/** Word-at-a-time searches over byte strings: utf8findstart and utf8strnlen of src/utf8.c,
    findfirstnonspace and lastnonspace of src/bitutils.c, in the x86-64 and the 32-bit build,
    and ASAPI_TrimString of src/as_api.cpp.  A pointer is an index into the bytes from `str`
    on; the null pointer is -1. */
module Scan {
  import opened Arith
  import opened BitUtils
  import opened Words

  type byte = bv8

  predicate Hit(probe: Probe, b: byte) {
    Test(probe, b) != 0
  }

  /** r is the first hit among the first n bytes, or -1: what a byte-by-byte search returns. */
  ghost predicate IsFirst(probe: Probe, s: seq<byte>, n: int, r: int)
    requires 0 <= n <= |s|
  {
    && -1 <= r < n
    && (r >= 0 ==> Hit(probe, s[r]))
    && forall k :: 0 <= k < (if r == -1 then n else r) ==> !Hit(probe, s[k])
  }

  /** r is the last hit among the first n bytes, or -1. */
  ghost predicate IsLast(probe: Probe, s: seq<byte>, n: int, r: int)
    requires 0 <= n <= |s|
  {
    && -1 <= r < n
    && (r >= 0 ==> Hit(probe, s[r]))
    && forall k :: r < k < n ==> !Hit(probe, s[k])
  }

  /** The searches have one answer, so both builds give the same one. */
  lemma SearchIsUnique(probe: Probe, s: seq<byte>, n: int, r: int, t: int)
    requires 0 <= n <= |s|
    ensures IsFirst(probe, s, n, r) && IsFirst(probe, s, n, t) ==> r == t
    ensures IsLast(probe, s, n, r) && IsLast(probe, s, n, t) ==> r == t
  {
  }

  /** utf8findstart (src/utf8.c:6-38) and findfirstnonspace (src/bitutils.c:52-82), x86-64. */
  method FindFirst64(probe: Probe, s: seq<byte>, bytelen: nat) returns (r: int)
    requires bytelen <= |s|
    ensures IsFirst(probe, s, bytelen, r)
  {
    var intlen := bytelen / 8;
    var idx: nat := 0;
    while idx < intlen
      invariant idx <= intlen
      invariant forall k :: 0 <= k < 8 * idx ==> !Hit(probe, s[k])
    {
      var i := 8 * idx;
      var found, offset := FirstInWord64(probe, s[i], s[i + 1], s[i + 2], s[i + 3],
                                         s[i + 4], s[i + 5], s[i + 6], s[i + 7]);
      if found {
        return i + offset;
      }
      idx := idx + 1;
    }
    var charidx := 8 * idx;
    while charidx < bytelen
      invariant charidx <= bytelen
      invariant forall k :: 0 <= k < charidx ==> !Hit(probe, s[k])
    {
      if Hit(probe, s[charidx]) {
        return charidx;
      }
      charidx := charidx + 1;
    }
    return -1;
  }

  /** `intlen` of the 32-bit build, an unsigned int (src/utf8.c:43, src/bitutils.c:127). */
  function WordCount32(bytelen: nat): nat { bytelen / 4 % WORD32 }

  /** `remainder` of the 32-bit build, with the wrapping shift (src/utf8.c:62, src/bitutils.c:146). */
  function TailLength32(bytelen: nat): int { bytelen - WordCount32(bytelen) * 4 % WORD32 }

  /** Whether the byte count of the whole words fits the unsigned shift. */
  predicate WordsFit32(bytelen: nat) { WordCount32(bytelen) * 4 < WORD32 }

  /** The words and the tail make up the string exactly if that shift does not wrap, as for all
      strings below 2^32 bytes; otherwise the tail reaches behind the end. */
  lemma TailIsRightWithoutWrap(bytelen: nat)
    ensures WordCount32(bytelen) * 4 + TailLength32(bytelen) == bytelen <==> WordsFit32(bytelen)
    ensures !WordsFit32(bytelen) ==> WordCount32(bytelen) * 4 + TailLength32(bytelen) > bytelen
    ensures bytelen < WORD32 ==> WordsFit32(bytelen)
    ensures !WordsFit32(WORD32) && TailLength32(WORD32) == WORD32
  {
  }

  /** utf8findstart (src/utf8.c:40-74) and findfirstnonspace (src/bitutils.c:124-158), 32-bit. */
  method FindFirst32(probe: Probe, s: seq<byte>, bytelen: nat) returns (r: int)
    requires bytelen <= |s| && WordsFit32(bytelen)
    ensures IsFirst(probe, s, bytelen, r)
  {
    TailIsRightWithoutWrap(bytelen);
    var intlen := WordCount32(bytelen);
    var idx: nat := 0;
    while idx < intlen
      invariant idx <= intlen
      invariant forall k :: 0 <= k < 4 * idx ==> !Hit(probe, s[k])
    {
      var i := 4 * idx;
      var found, offset := FirstInWord32(probe, s[i], s[i + 1], s[i + 2], s[i + 3]);
      if found {
        return i + offset;
      }
      idx := idx + 1;
    }
    var charidx := 4 * idx;
    var charend := charidx + TailLength32(bytelen);
    while charidx < charend
      invariant charidx <= charend
      invariant forall k :: 0 <= k < charidx ==> !Hit(probe, s[k])
    {
      if Hit(probe, s[charidx]) {
        return charidx;
      }
      charidx := charidx + 1;
    }
    return -1;
  }

  // ---------- the last hit; idx and margin are ints ----------

  /** The index of the last byte survives the conversion to int exactly up to 2^31 bytes. */
  lemma LastIndexFitsUpTo2G(bytelen: nat)
    requires 0 < bytelen
    ensures AsInt(bytelen - 1) == bytelen - 1 <==> bytelen <= HALF32
  {
  }

  /** The bytes behind the last whole word, from the back (src/bitutils.c:89-100, 165-176). */
  method LastInTail(s: seq<byte>, bytelen: nat, margin: nat) returns (r: int)
    requires margin <= bytelen <= |s| && 0 < bytelen <= HALF32
    ensures -1 <= r < bytelen && (r >= 0 ==> margin <= r && Hit(NonSpace, s[r]))
    ensures forall k :: (if r == -1 then margin - 1 else r) < k < bytelen ==> !Hit(NonSpace, s[k])
  {
    var idx := AsInt(bytelen - 1);
    while idx >= margin
      invariant margin - 1 <= idx < bytelen
      invariant forall k :: idx < k < bytelen ==> !Hit(NonSpace, s[k])
      decreases idx
    {
      if Hit(NonSpace, s[idx]) {
        return idx;
      }
      idx := idx - 1;
    }
    return -1;
  }

  /** lastnonspace (src/bitutils.c:84-121), x86-64. */
  method LastNonspace64(s: seq<byte>, bytelen: nat) returns (r: int)
    requires bytelen <= |s| && bytelen <= HALF32
    ensures IsLast(NonSpace, s, bytelen, r)
  {
    var intlen := bytelen / 8;
    var remainder := bytelen - intlen * 8;
    if remainder != 0 {
      r := LastInTail(s, bytelen, bytelen - remainder);
      if r >= 0 { return; }
    }
    var idx := intlen - 1;
    while idx >= 0
      invariant -1 <= idx < intlen
      invariant forall k :: 8 * (idx + 1) <= k < bytelen ==> !Hit(NonSpace, s[k])
      decreases idx
    {
      var i := 8 * idx;
      var found, offset := LastInWord64(NonSpace, s[i], s[i + 1], s[i + 2], s[i + 3],
                                        s[i + 4], s[i + 5], s[i + 6], s[i + 7]);
      if found {
        return i + (7 - offset);
      }
      idx := idx - 1;
    }
    return -1;
  }

  /** lastnonspace (src/bitutils.c:160-196), 32-bit. */
  method LastNonspace32(s: seq<byte>, bytelen: nat) returns (r: int)
    requires bytelen <= |s| && bytelen <= HALF32
    ensures IsLast(NonSpace, s, bytelen, r)
  {
    var intlen := bytelen / 4;
    var remainder := bytelen - intlen * 4;
    if remainder != 0 {
      r := LastInTail(s, bytelen, bytelen - remainder);
      if r >= 0 { return; }
    }
    var idx := intlen - 1;
    while idx >= 0
      invariant -1 <= idx < intlen
      invariant forall k :: 4 * (idx + 1) <= k < bytelen ==> !Hit(NonSpace, s[k])
      decreases idx
    {
      var i := 4 * idx;
      var found, offset := LastInWord32(NonSpace, s[i], s[i + 1], s[i + 2], s[i + 3]);
      if found {
        return i + (3 - offset);
      }
      idx := idx - 1;
    }
    return -1;
  }

  const SPACE: byte := 0x20

  ghost predicate AllSpaces(s: seq<byte>) {
    forall k :: 0 <= k < |s| ==> s[k] == SPACE
  }

  /** r is what is left of s from front on: around it are only spaces, and it starts and ends
      with something else. */
  ghost predicate IsSpan(s: seq<byte>, r: seq<byte>, front: nat) {
    && r != [] && r[0] != SPACE && r[|r| - 1] != SPACE
    && front + |r| <= |s| && r == s[front..front + |r|]
    && forall k :: 0 <= k < front || front + |r| <= k < |s| ==> s[k] == SPACE
  }

  ghost predicate IsTrimmed(s: seq<byte>, r: seq<byte>) {
    if AllSpaces(s) then r == s else exists front: nat :: IsSpan(s, r, front)
  }

  lemma SpanEnds(s: seq<byte>, r: seq<byte>, front: nat)
    requires IsSpan(s, r, front)
    ensures s[front] == r[0] && s[front + |r| - 1] == r[|r| - 1]
  {
  }

  /** The result of a trim is determined, so the two builds agree. */
  lemma TrimIsUnique(s: seq<byte>, r: seq<byte>, t: seq<byte>)
    requires IsTrimmed(s, r) && IsTrimmed(s, t)
    ensures r == t
  {
    if !AllSpaces(s) {
      var f :| IsSpan(s, r, f);
      var g :| IsSpan(s, t, g);
      SpanEnds(s, r, f);
      SpanEnds(s, t, g);
    }
  }

  lemma NonSpaceIsHit()
    ensures forall b :: Hit(NonSpace, b) <==> b != SPACE
  {
    forall b: byte
      ensures Hit(NonSpace, b) <==> b != SPACE
    {
    }
  }

  /** ASAPI_TrimString (src/as_api.cpp:199-216): exactly the span from the first to the last
      non-space; a string of spaces is kept whole. */
  method TrimString(s: seq<byte>, x64: bool) returns (r: seq<byte>)
    requires |s| <= HALF32
    ensures IsTrimmed(s, r)
  {
    var begin, end;
    if x64 {
      begin := FindFirst64(NonSpace, s, |s|);
      end := LastNonspace64(s, |s|);
    } else {
      TailIsRightWithoutWrap(|s|);
      begin := FindFirst32(NonSpace, s, |s|);
      end := LastNonspace32(s, |s|);
    }
    NonSpaceIsHit();
    if begin >= 0 && end >= 0 {
      r := s[begin..begin + (end - begin + 1)];
      assert IsSpan(s, r, begin);
    } else {
      r := s;
    }
  }

  // ---------- UTF-8 ----------

  /** leadingones (src/bitutils.c:34-49), by the ranges of its table. */
  function LeadingOnes(b: byte): nat {
    if b < 0x80 then 0 else if b < 0xC0 then 1 else if b < 0xE0 then 2 else if b < 0xF0 then 3
    else if b < 0xF6 then 4 else 0
  }

  predicate Tail(b: byte) {
    0x80 <= b <= 0xBF
  }

  /** Length of the UTF-8 character at the front of t, 0 if there is none (section 4 of RFC 3629). */
  function CharLength(t: seq<byte>): nat {
    if |t| >= 1 && t[0] <= 0x7F then 1
    else if |t| >= 2 && 0xC2 <= t[0] <= 0xDF && Tail(t[1]) then 2
    else if |t| >= 3 && Tail(t[2])
      && ((t[0] == 0xE0 && 0xA0 <= t[1] <= 0xBF) || (0xE1 <= t[0] <= 0xEC && Tail(t[1]))
          || (t[0] == 0xED && 0x80 <= t[1] <= 0x9F) || (0xEE <= t[0] <= 0xEF && Tail(t[1]))) then 3
    else if |t| >= 4 && Tail(t[2]) && Tail(t[3])
      && ((t[0] == 0xF0 && 0x90 <= t[1] <= 0xBF) || (0xF1 <= t[0] <= 0xF3 && Tail(t[1]))
          || (t[0] == 0xF4 && 0x80 <= t[1] <= 0x8F)) then 4
    else 0
  }

  predicate WellFormed(t: seq<byte>) {
    t == [] || (0 < CharLength(t) <= |t| && WellFormed(t[CharLength(t)..]))
  }

  function CodePoints(t: seq<byte>): nat
    requires WellFormed(t)
  {
    if t == [] then 0 else 1 + CodePoints(t[CharLength(t)..])
  }

  /** How many characters take more than one byte. */
  function Multibytes(t: seq<byte>): nat
    requires WellFormed(t)
  {
    if t == [] then 0 else (if CharLength(t) > 1 then 1 else 0) + Multibytes(t[CharLength(t)..])
  }

  lemma HighBitIsHit(b: byte)
    ensures Hit(HighBit, b) <==> b >= 0x80
  {
  }

  /** The lead byte of a multi-byte character tells its length. */
  lemma LeadTellsLength(t: seq<byte>)
    requires WellFormed(t) && t != [] && t[0] >= 0x80
    ensures CharLength(t) == LeadingOnes(t[0]) >= 2
  {
  }

  /** One-byte characters in front. */
  lemma {:induction false} AsciiFront(t: seq<byte>, k: nat)
    requires WellFormed(t) && k <= |t| && forall i :: 0 <= i < k ==> t[i] < 0x80
    ensures WellFormed(t[k..]) && CodePoints(t) == k + CodePoints(t[k..]) && Multibytes(t) == Multibytes(t[k..])
    decreases k
  {
    if k == 0 {
      assert t[0..] == t;
    } else {
      assert CharLength(t) == 1;
      AsciiFront(t[1..], k - 1);
      assert t[1..][k - 1..] == t[k..];
    }
  }

  /** strnlen(str + from, bytelen - from). */
  method StrNLen(mem: seq<byte>, from: nat, bytelen: nat) returns (n: nat)
    requires from <= bytelen <= |mem|
    ensures from + n <= bytelen && (from + n < bytelen ==> mem[from + n] == 0)
    ensures forall k :: from <= k < from + n ==> mem[k] != 0
  {
    n := 0;
    while from + n < bytelen && mem[from + n] != 0
      invariant from + n <= bytelen
      invariant forall k :: from <= k < from + n ==> mem[k] != 0
    {
      n := n + 1;
    }
  }

  /** z bytes of text in front of the first NUL, or all bytelen; the bytes behind it that a scan
      can reach are ASCII.  A scan overshoots bytelen by one byte per multi-byte character. */
  ghost predicate IsText(mem: seq<byte>, bytelen: nat, z: nat) {
    && z <= bytelen && z <= |mem|
    && WellFormed(mem[..z]) && (forall k :: 0 <= k < z ==> mem[k] != 0)
    && bytelen + Multibytes(mem[..z]) <= |mem|
    && (z < bytelen ==> mem[z] == 0)
    && (forall k :: z <= k < bytelen + Multibytes(mem[..z]) ==> mem[k] < 0x80)
  }

  /** What the loop of utf8strnlen keeps for a text of z bytes, chars characters and multis
      multi-byte ones: `at` bytes read, blen trailing by one per multi-byte character. */
  ghost predicate Counted(mem: seq<byte>, z: nat, chars: int, multis: int, at: nat, blen: int, len: int) {
    && at <= z <= |mem| && WellFormed(mem[at..z])
    && 0 <= blen <= at
    && multis == (at - blen) + Multibytes(mem[at..z])
    && chars == len + (at - blen) + CodePoints(mem[at..z])
  }

  lemma FirstChar(u: seq<byte>)
    requires WellFormed(u) && u != [] && u[0] >= 0x80
    ensures var w := LeadingOnes(u[0]);
      && 2 <= w <= |u| && WellFormed(u[w..])
      && CodePoints(u) == 1 + CodePoints(u[w..]) && Multibytes(u) == 1 + Multibytes(u[w..])
  {
    LeadTellsLength(u);
  }

  lemma Slices(t: seq<byte>, k: nat, w: nat)
    requires k + w <= |t|
    ensures t[k..][w..] == t[k + w..]
  {
  }

  /** ASCII bytes up to k, one multi-byte character, and the rest. */
  lemma NextCharOf(t: seq<byte>, k: nat) returns (w: nat)
    requires k < |t| && WellFormed(t) && t[k] >= 0x80 && forall i :: 0 <= i < k ==> t[i] < 0x80
    ensures w == LeadingOnes(t[k]) && 2 <= w <= |t| - k
    ensures WellFormed(t[k + w..])
    ensures CodePoints(t) == k + 1 + CodePoints(t[k + w..]) && Multibytes(t) == 1 + Multibytes(t[k + w..])
  {
    AsciiFront(t, k);
    FirstChar(t[k..]);
    w := LeadingOnes(t[k]);
    Slices(t, k, w);
  }

  /** The text from `at` on is the ASCII bytes up to p, one multi-byte character, and the rest. */
  lemma NextChar(mem: seq<byte>, z: nat, at: nat, p: nat) returns (w: nat)
    requires at <= p < z <= |mem| && WellFormed(mem[at..z])
    requires mem[p] >= 0x80 && forall k :: at <= k < p ==> mem[k] < 0x80
    ensures w == LeadingOnes(mem[p]) && 2 <= w <= z - p
    ensures WellFormed(mem[p + w..z])
    ensures CodePoints(mem[at..z]) == (p - at) + 1 + CodePoints(mem[p + w..z])
    ensures Multibytes(mem[at..z]) == 1 + Multibytes(mem[p + w..z])
  {
    w := NextCharOf(mem[at..z], p - at);
    assert mem[at..z][p - at + w..] == mem[p + w..z];
  }

  /** A scan from `at` stays in the memory and meets no high byte behind the text. */
  lemma CountReach(mem: seq<byte>, bytelen: nat, z: nat, chars: int, multis: int, at: nat, blen: int, len: int)
    requires IsText(mem, bytelen, z) && multis == Multibytes(mem[..z]) && Counted(mem, z, chars, multis, at, blen, len)
    ensures 0 <= blen <= bytelen && at + (bytelen - blen) <= |mem|
    ensures forall k :: z <= k < at + (bytelen - blen) ==> mem[k] < 0x80
  {
  }

  /** When no high byte is left, the rest of the text is ASCII. */
  lemma CountEnd(mem: seq<byte>, z: nat, chars: int, multis: int, at: nat, blen: int, len: int)
    requires Counted(mem, z, chars, multis, at, blen, len) && forall k :: at <= k < z ==> mem[k] < 0x80
    ensures chars == len + (z - blen)
  {
    AsciiFront(mem[at..z], z - at);
    assert mem[at..z][z - at..] == [];
  }

  /** The account of the loop moves on by the ASCII bytes up to p and one character of w bytes. */
  lemma CountStep(mem: seq<byte>, p: nat, s: nat, blen: int, len: int, z: nat, chars: int, multis: int)
      returns (w: nat)
    requires Counted(mem, z, chars, multis, s, blen, len) && s <= p < z
    requires mem[p] >= 0x80 && forall k :: s <= k < p ==> mem[k] < 0x80
    ensures w == LeadingOnes(mem[p]) && 0 < w
    ensures Counted(mem, z, chars, multis, p + w, blen + w + (p - s) - 1, len + (p - s))
  {
    w := NextChar(mem, z, s, p);
  }

  /** One round of the loop (src/utf8.c:86-90). */
  method CountRound(mem: seq<byte>, p: nat, s: nat, blen0: int, len0: int,
                    ghost z: nat, ghost chars: int, ghost multis: int)
      returns (s': nat, blen: int, len: int)
    requires Counted(mem, z, chars, multis, s, blen0, len0) && s <= p < z
    requires mem[p] >= 0x80 && forall k :: s <= k < p ==> mem[k] < 0x80
    ensures s < s' && Counted(mem, z, chars, multis, s', blen, len)
  {
    ghost var w := CountStep(mem, p, s, blen0, len0, z, chars, multis);
    var utf8charwidth := LeadingOnes(mem[p]);
    blen := blen0 + utf8charwidth + (p - s) - 1;
    len := len0 + (p - s);
    s' := p + utf8charwidth;
  }

  /** p is the first byte with its top bit set among n bytes from `from` on, or -1. */
  ghost predicate StartsAt(mem: seq<byte>, from: int, n: int, p: int)
    requires 0 <= from <= from + n <= |mem|
  {
    && -1 <= p && (p >= 0 ==> from <= p < from + n && mem[p] >= 0x80)
    && forall k :: from <= k < (if p >= 0 then p else from + n) ==> mem[k] < 0x80
  }

  /** utf8findstart(str + from, n), as an index from str on. */
  method FindStart(mem: seq<byte>, from: nat, n: nat, x64: bool) returns (p: int)
    requires from + n <= |mem| && (x64 || WordsFit32(n))
    ensures StartsAt(mem, from, n, p)
  {
    var str := mem[from..];
    if x64 { p := FindFirst64(HighBit, str, n); } else { p := FindFirst32(HighBit, str, n); }
    forall k | 0 <= k < n
      ensures Hit(HighBit, mem[from + k]) <==> mem[from + k] >= 0x80
      ensures str[k] == mem[from + k]
    {
      HighBitIsHit(mem[from + k]);
    }
    forall k | from <= k < (if p >= 0 then from + p else from + n)
      ensures mem[k] < 0x80
    {
      assert !Hit(HighBit, str[k - from]);
    }
    if p >= 0 { p := from + p; }
  }

  /** The same below 2^32 bytes, as both builds can. */
  method FindNear(mem: seq<byte>, from: nat, n: nat, x64: bool) returns (p: int)
    requires from + n <= |mem| && (x64 || n < WORD32)
    ensures StartsAt(mem, from, n, p)
  {
    TailIsRightWithoutWrap(n);
    p := FindStart(mem, from, n, x64);
  }

  /** utf8strnlen (src/utf8.c:77-93): the number of characters before the first NUL. */
  method Utf8StrNLen(mem: seq<byte>, bytelen: nat, x64: bool, ghost z: nat) returns (r: nat)
    requires IsText(mem, bytelen, z) && (x64 || bytelen < WORD32)
    ensures r == CodePoints(mem[..z])
  {
    var len, s, blen := 0, 0, 0;
    ghost var chars, multis := CodePoints(mem[..z]), Multibytes(mem[..z]);
    assert mem[0..z] == mem[..z];
    CountReach(mem, bytelen, z, chars, multis, s, blen, len);
    var p := FindNear(mem, s, bytelen - blen, x64);
    while p >= 0
      invariant 0 <= s && Counted(mem, z, chars, multis, s, blen, len)
      invariant blen <= bytelen && s + (bytelen - blen) <= |mem|
      invariant StartsAt(mem, s, bytelen - blen, p)
      decreases z - s, p
    {
      CountReach(mem, bytelen, z, chars, multis, s, blen, len);
      s, blen, len := CountRound(mem, p, s, blen, len, z, chars, multis);
      CountReach(mem, bytelen, z, chars, multis, s, blen, len);
      p := FindNear(mem, s, bytelen - blen, x64);
    }
    CountReach(mem, bytelen, z, chars, multis, s, blen, len);
    CountEnd(mem, z, chars, multis, s, blen, len);
    var rest := StrNLen(mem, blen, bytelen);
    r := len + rest;
  }

  // ---------- one round on any bytes ----------

  const SIZE_T := 0x1_0000_0000_0000_0000

  /** `blen` after a round that stopped k bytes behind the place it scanned from, at a byte of
      width w (src/utf8.c:87); a size_t. */
  function NextBlen(blen: nat, k: nat, w: nat): nat { (blen + w + k - 1) % SIZE_T }

  /** The length passed to the next scan (src/utf8.c:90). */
  function RestLength(bytelen: nat, blen: nat): nat { (bytelen - blen) % SIZE_T }

  /** The place moves on behind the byte a scan stopped at exactly if that byte is below 0xF6;
      those from there on have width 0. */
  lemma RoundMovesOnBelowF6(mem: seq<byte>, p: nat)
    requires p < |mem| && mem[p] >= 0x80
    ensures p < p + LeadingOnes(mem[p]) <==> mem[p] < 0xF6
  {
  }

  /** The length that remains does not wrap exactly if the character's width, less one, fits into
      what is left behind the ASCII bytes, and something was read at all. */
  lemma RestLengthIsRight(bytelen: nat, blen: nat, k: nat, w: nat)
    requires blen <= bytelen && k < bytelen - blen && w <= 4 && bytelen + 4 < SIZE_T
    ensures RestLength(bytelen, NextBlen(blen, k, w)) <= bytelen
            <==> 1 <= blen + k + w && k + w <= bytelen - blen + 1
    ensures RestLength(bytelen, NextBlen(blen, k, w)) <= bytelen ==>
      RestLength(bytelen, NextBlen(blen, k, w)) == bytelen - (blen + w + k - 1)
  {
    var next := blen + w + k - 1;
    if next < 0 {
      assert NextBlen(blen, k, w) == SIZE_T - 1;
    } else {
      assert NextBlen(blen, k, w) == next;
    }
  }

  /** On a byte of width 0 the next scan stops where the last one did, however far it reaches. */
  lemma StuckAtInvalidByte(mem: seq<byte>, p: nat, n: nat, q: int)
    requires p < |mem| && mem[p] >= 0xF6 && 0 < n && p + n <= |mem|
    requires StartsAt(mem, p + LeadingOnes(mem[p]), n, q)
    ensures q == p
  {
  }

  /** The string 0xFF with its NUL is such an input: its scan stops at 0, the next one is given
      two bytes, and stops there again. */
  lemma StuckInput(q: int)
    ensures StartsAt([0xFF, 0x00], 0, 1, q) ==> q == 0
    ensures RestLength(1, NextBlen(0, 0, LeadingOnes(0xFF))) == 2
    ensures StartsAt([0xFF, 0x00], 0 + LeadingOnes(0xFF), 2, q) ==> q == 0
  {
    if StartsAt([0xFF, 0x00], 0 + LeadingOnes(0xFF), 2, q) { StuckAtInvalidByte([0xFF, 0x00], 0, 2, q); }
  }

  /** Two bytes of a character cut short, 0xF0 and a NUL: the round moves on, to behind the memory,
      and the length that remains wraps. */
  lemma CutInput(q: int)
    ensures StartsAt([0xF0, 0x00], 0, 2, q) ==> q == 0
    ensures 0 + LeadingOnes(0xF0) > |[0xF0, 0x00]|
    ensures RestLength(2, NextBlen(0, 0, LeadingOnes(0xF0))) == SIZE_T - 1
  {
    var mem: seq<byte> := [0xF0, 0x00];
    assert mem[0] >= 0x80;
  }
}
