/** Double-word multiplication and division out of half-word pieces: the plain-C macros
    `umul_ppmm` and `__udiv_qrnnd_c` of src/gmp-6.2.0/longlong.h, for 64-bit words.  Every
    `+`, `-` and `*` on a word is taken modulo B, as UWtype arithmetic is. */
module DoubleWord {
  import opened Arith

  const H := 0x1_0000_0000             // __ll_B: one half word
  const B := 0x1_0000_0000_0000_0000   // one word

  type word = x: int | 0 <= x < B

  function Add(x: word, y: word): word { (x + y) % B }
  function Sub(x: word, y: word): word { (x - y) % B }
  function Mul(x: word, y: word): word { (x * y) % B }
  function Low(x: word): word { x % H }
  function High(x: word): word { x / H }

  lemma OrFits(x: word, y: word)
    requires x % H == 0 && y < H
    ensures x + y < B
  {
  }

  // x | y for operands that share no bit
  function Or(x: word, y: word): word
    requires x % H == 0 && y < H
  {
    OrFits(x, y);
    x + y
  }

  /** A product of two half words is a word, with room for two more half words. */
  lemma HalfProduct(a: int, b: int)
    requires 0 <= a < H && 0 <= b < H
    ensures 0 <= a * b <= (H - 1) * (H - 1)
  {
    MulMono(0, a, b);
    MulMono(a, H - 1, b);
    assert (H - 1) * b == b * (H - 1);
    MulMono(b, H - 1, H - 1);
  }

  lemma Split(x: word)
    ensures x == High(x) * H + Low(x) && 0 <= High(x) < H && 0 <= Low(x) < H
  {
  }

  /** The four partial products of u * v, by half words. */
  lemma PartialProducts(ul: int, uh: int, vl: int, vh: int)
    ensures (uh * H + ul) * (vh * H + vl) == uh * vh * B + (ul * vh + uh * vl) * H + ul * vl
  {
    calc {
      (uh * H + ul) * (vh * H + vl);
      (uh * H) * (vh * H + vl) + ul * (vh * H + vl);
      { assert (uh * H) * (vh * H + vl) == uh * H * (vh * H) + uh * H * vl; }
      uh * H * (vh * H) + uh * H * vl + ul * (vh * H) + ul * vl;
      { assert uh * H * (vh * H) == uh * vh * B; }
      uh * vh * B + uh * vl * H + ul * vh * H + ul * vl;
    }
  }

  lemma ModUnique(x: int, q: int, r: int)
    requires x == q * B + r && 0 <= r < B
    ensures x % B == r && x / B == q
  {
  }

  lemma MulFits(x: word, y: word)
    requires x * y < B
    ensures Mul(x, y) == x * y
  {
    MulMono(0, x, y);
    ModUnique(x * y, 0, x * y);
  }

  lemma AddWraps(x: word, y: word)
    ensures Add(x, y) == if x + y < B then x + y else x + y - B
  {
  }

  lemma SubWraps(x: word, y: word)
    ensures Sub(x, y) == if x >= y then x - y else x - y + B
  {
  }

  lemma ShiftUp(x: word)
    ensures (x * H) % B == Low(x) * H
  {
    Split(x);
    ModUnique(x * H, High(x), Low(x) * H);
  }

  lemma Recombine(p0: int, p1: int, p2: int, p3: int, h0: int, l0: int, carry: int, h1: int, l1: int)
    requires p0 == h0 * H + l0 && p1 + h0 + p2 == carry * B + h1 * H + l1
    ensures p3 * B + (p1 + p2) * H + p0 == (p3 + carry * H + h1) * B + l1 * H + l0
  {
  }

  /** Adds up the partial products (src/gmp-6.2.0/longlong.h:2115-2121).  The sum of the middle
      products can carry out of a word; `x1 < x2` detects exactly that. */
  method SumPartials(p0: word, p1: word, p2: word, p3: word) returns (w1: word, w0: word)
    requires p1 <= (H - 1) * (H - 1)
    requires p3 * B + (p1 + p2) * H + p0 < B * B
    ensures w1 * B + w0 == p3 * B + (p1 + p2) * H + p0
  {
    var x0, x1, x2, x3 := p0, p1, p2, p3;
    Split(x0);
    AddWraps(x1, High(x0));
    x1 := Add(x1, High(x0));
    AddWraps(x1, x2);
    ghost var sum, carry := x1 + x2, if x1 + x2 < B then 0 else 1;
    x1 := Add(x1, x2);
    assert sum == carry * B + x1 && (x1 < x2 <==> carry == 1);
    Split(x1);
    Recombine(p0, p1, p2, p3, High(p0), Low(p0), carry, High(x1), Low(x1));
    assert p3 + carry * H + High(x1) < B;
    if x1 < x2 {
      AddWraps(x3, H);
      x3 := Add(x3, H);
    }
    ShiftUp(x1);
    AddWraps(x3, High(x1));
    AddWraps((x1 * H) % B, Low(x0));
    w1 := Add(x3, High(x1));
    w0 := Add((x1 * H) % B, Low(x0));
  }

  lemma ProductFits(u: int, v: int)
    requires 0 <= u < B && 0 <= v < B
    ensures 0 <= u * v < B * B
  {
    MulMono(u, B, v);
    MulMono(0, u, v);
  }

  /** umul_ppmm (src/gmp-6.2.0/longlong.h:2099-2122): the double-word product of two words. */
  method Umul(u: word, v: word) returns (w1: word, w0: word)
    ensures w1 * B + w0 == u * v
  {
    var ul, uh := Low(u), High(u);
    var vl, vh := Low(v), High(v);
    HalfProduct(ul, vl); HalfProduct(ul, vh); HalfProduct(uh, vl); HalfProduct(uh, vh);
    MulFits(ul, vl); MulFits(ul, vh); MulFits(uh, vl); MulFits(uh, vh);
    Split(u); Split(v);
    PartialProducts(ul, uh, vl, vh);
    ProductFits(u, v);
    w1, w0 := SumPartials(Mul(ul, vl), Mul(ul, vh), Mul(uh, vl), Mul(uh, vh));
  }

  // ---------- division ----------

  /** What one half step of the division owes: the next half-word digit of the quotient. */
  ghost predicate IsDigit(n: int, a: int, d: int, q: int, r: int) {
    0 <= q < H && 0 <= r < d && q * d + r == n * H + a
  }

  lemma QuotientBound(n1: int, d1: int, q: int, r: int)
    requires H / 2 <= d1 && 0 <= n1 < d1 * H + H && n1 == q * d1 + r && 0 <= r < d1
    ensures 0 <= q <= H + 1
  {
    if q >= H + 2 { MulMono(H + 2, q, d1); }
    if q <= -1 { MulMono(q, -1, d1); }
  }

  lemma EstimateProduct(q: int, d0: int)
    requires 0 <= q <= H + 1 && 0 <= d0 < H
    ensures 0 <= q * d0 < B
    ensures q == 0 ==> q * d0 == 0
    ensures q == 1 ==> q * d0 == d0
  {
    MulMono(q, H + 1, d0);
    MulMono(0, q, d0);
  }

  lemma Distribute(a: int, b: int, c: int)
    ensures a * (b + c) == a * b + a * c
  {
  }

  lemma Assoc(a: int, b: int, c: int)
    ensures a * (b * c) == (a * b) * c
  {
  }

  lemma QuotientTimesDivisor(q: int, d1: int, d0: int)
    ensures q * (d1 * H + d0) == (q * d1) * H + q * d0
  {
    Distribute(q, d1 * H, d0);
    Assoc(q, d1, H);
  }

  lemma DivMod(n: int, d: int)
    requires 0 <= n && 0 < d
    ensures 0 <= n / d <= n && n == (n / d) * d + n % d && 0 <= n % d < d
  {
    var q := n / d;
    if q > n { MulMono(n + 1, q, d); MulMono(1, d, n + 1); }
  }

  /** The corrections of a half step (src/gmp-6.2.0/longlong.h:2152-2159): r - m is at most two
      divisors below zero, and `r >= d` after adding d tells that the addition did not wrap. */
  method Correct(q0: word, r0: word, m: word, d: word) returns (q: word, r: word, ghost k: int)
    requires B / 2 <= d && r0 < d
    requires (q0 == 0 ==> m == 0) && (q0 == 1 ==> m < d)
    ensures 0 <= k <= 2 && q == q0 - k
    ensures r < d && r == r0 - m + (if k == 0 then 0 else if k == 1 then d else 2 * d)
  {
    q, r, k := q0, r0, 0;
    if r < m {
      AddWraps(r, d); SubWraps(q, 1);
      q, r, k := Sub(q, 1), Add(r, d), 1;
      if r >= d {
        if r < m {
          AddWraps(r, d); SubWraps(q, 1);
          q, r, k := Sub(q, 1), Add(r, d), 2;
        }
      }
    }
    SubWraps(r, m);
    r := Sub(r, m);
  }

  /** A quotient with a remainder in range is a digit. */
  lemma RemainderMakesDigit(n1: int, a: int, d: int, q: int, r: int)
    requires 0 <= n1 < d && 0 <= a < H && 0 <= r < d && q * d + r == n1 * H + a
    ensures IsDigit(n1, a, d, q, r)
  {
    if q < 0 {
      MulMono(q, -1, d);
      MulMono(0, n1, H);
    }
    if q >= H {
      MulMono(H, q, d);
      MulMono(n1, d - 1, H);
    }
  }

  /** `__r1 * __ll_B | a` (src/gmp-6.2.0/longlong.h:2151). */
  function Shift(r: word, a: word, d1: word): (s: word)
    requires r < d1 < H && a < H
    ensures s == r * H + a && s < d1 * H
  {
    assert (r * H) % H == 0;
    Or(r * H, a)
  }

  lemma TakeDivisors(q: int, k: int, d: int)
    requires 0 <= k <= 2
    ensures (q - k) * d == q * d - (if k == 0 then 0 else if k == 1 then d else 2 * d)
  {
  }

  /** One half of __udiv_qrnnd_c (src/gmp-6.2.0/longlong.h:2148-2160 and, on the remainder,
      2162-2173): estimate a half-word digit with the high half of d, then correct it at most
      twice. */
  method DivideHalf(n1: word, a: word, d: word) returns (q: word, r: word)
    requires B / 2 <= d && n1 < d && a < H
    ensures IsDigit(n1, a, d, q, r)
  {
    var d1, d0 := High(d), Low(d);
    Split(d);
    DivMod(n1, d1);
    q := n1 / d1;
    ghost var estimate := q;
    r := n1 - q * d1;
    QuotientBound(n1, d1, q, r);
    EstimateProduct(q, d0);
    MulFits(q, d0);
    QuotientTimesDivisor(q, d1, d0);
    var m := Mul(q, d0);
    r := Shift(r, a, d1);
    assert estimate * d + (r - m) == n1 * H + a;
    ghost var k;
    q, r, k := Correct(q, r, m, d);
    assert q * d == estimate * d - (if k == 0 then 0 else if k == 1 then d else 2 * d) by {
      TakeDivisors(estimate, k, d);
    }
    RemainderMakesDigit(n1, a, d, q, r);
  }

  lemma Digits(n1: int, a1: int, a0: int, d: int, q1: int, r1: int, q0: int, r0: int)
    requires q1 * d + r1 == n1 * H + a1 && q0 * d + r0 == r1 * H + a0
    ensures (q1 * H + q0) * d + r0 == n1 * B + a1 * H + a0
  {
    assert (q1 * H + q0) * d == (q1 * d) * H + q0 * d by {
      Distribute(d, q1 * H, q0);
      Assoc(d, q1, H);
    }
  }

  /** __udiv_qrnnd_c (src/gmp-6.2.0/longlong.h:2139-2177) for a normalized d. */
  method UdivQrnnd(n1: word, n0: word, d: word) returns (q: word, r: word)
    requires B / 2 <= d && n1 < d
    ensures q * d + r == n1 * B + n0 && r < d
  {
    Split(n0);
    var q1, r1 := DivideHalf(n1, High(n0), d);
    var q0, r0 := DivideHalf(r1, Low(n0), d);
    var hi := Mul(q1, H);
    assert hi == q1 * H && hi % H == 0;
    q := Or(hi, q0);
    r := r0;
    Digits(n1, High(n0), Low(n0), d, q1, r1, q0, r0);
  }

  /** Quotient and remainder are determined by the division equation. */
  lemma DivisionIsUnique(d: int, q: int, r: int, q': int, r': int)
    requires 0 < d && q * d + r == q' * d + r' && 0 <= r < d && 0 <= r' < d
    ensures q == q' && r == r'
  {
    assert (q + 1) * d == q * d + d && (q' + 1) * d == q' * d + d;
    if q < q' { MulMono(q + 1, q', d); }
    if q' < q { MulMono(q' + 1, q, d); }
  }

  /** Dividing a product by a normalized factor gives back the other factor. */
  method DivideProduct(u: word, v: word) returns (q: word, r: word)
    requires B / 2 <= v
    ensures q == u && r == 0
  {
    var w1, w0 := Umul(u, v);
    if v <= w1 {
      MulMono(v, w1, B);
      MulMono(u, B - 1, v);
      assert false;
    }
    q, r := UdivQrnnd(w1, w0, v);
    DivisionIsUnique(v, q, r, u, 0);
  }
}
