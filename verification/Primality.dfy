/** Trial division on the wheel of 6: `isprime` of src/gmp-6.2.0/bootstrap.c. */
module Primality {
  import opened Arith

  const ULONG_MAX := 0xFFFF_FFFF_FFFF_FFFF

  ghost predicate Divides(m: int, t: int)
    requires m > 0
  {
    t % m == 0
  }

  ghost predicate IsPrime(t: int) {
    2 <= t && forall m {:trigger Divides(m, t)} :: 2 <= m < t ==> !Divides(m, t)
  }

  lemma Quotient(t: int, m: int)
    requires 0 <= t && 0 < m
    ensures t == (t / m) * m + t % m && 0 <= t % m < m && 0 <= t / m
  {
    if t / m < 0 {
      var q := t / m;
      MulMono(q, -1, m);
    }
  }

  lemma Multiple(k: int, m: int)
    requires 0 < m
    ensures (k * m) % m == 0
  {
    var q, r := (k * m) / m, (k * m) % m;
    assert k * m == q * m + r;
    assert (k - q) * m == r;
    if k - q >= 1 { MulMono(1, k - q, m); }
    if k - q <= -1 { MulMono(k - q, -1, m); }
  }

  lemma {:induction false} DividesTransitive(p: int, m: int, t: int)
    requires 0 < p && 0 < m && 0 <= t && Divides(p, m) && Divides(m, t)
    ensures Divides(p, t)
  {
    Quotient(t, m);
    Quotient(m, p);
    var a, b := t / m, m / p;
    assert t == (a * b) * p by { assert m == b * p; assert t == a * m; assert a * (b * p) == (a * b) * p; }
    Multiple(a * b, p);
  }

  /** No number from 2 up to (but not including) d divides t. */
  ghost predicate NoDivisorBelow(d: int, t: int) {
    forall m {:trigger Divides(m, t)} :: 2 <= m < d ==> !Divides(m, t)
  }

  lemma BelowSquare(t: int, d: int)
    requires 0 <= t && 0 < d && t / d < d
    ensures t < d * d
  {
    Quotient(t, d);
    MulMono(t / d + 1, d, d);
    assert (t / d + 1) * d == (t / d) * d + d;
  }

  /** The `q < d` exit is sound: a divisor from d up would have its cofactor below d. */
  lemma SquareRootSuffices(t: int, d: int)
    requires 2 <= t && 2 <= d && NoDivisorBelow(d, t) && t / d < d
    ensures IsPrime(t)
  {
    BelowSquare(t, d);
    forall m | 2 <= m < t
      ensures !Divides(m, t)
    {
      if Divides(m, t) {
        Quotient(t, m);
        var c := t / m;
        Multiple(m, c);
        assert t == m * c;
        if c >= d {
          MulMono(d, c, m);
          MulMono(d, m, d);
        } else if c <= 1 {
          MulMono(c, 1, m);
        } else {
          assert Divides(c, t);
        }
      }
    }
  }

  lemma SkippedNumber(d: int, e: int, m: int)
    requires (d % 6 == 5 && e == d + 2) || (d % 6 == 1 && e == d + 4)
    requires d < m < e
    ensures m % 2 == 0 || m % 3 == 0
  {
  }

  /** A step of the wheel skips only multiples of 2 and 3. */
  lemma WheelStep(d: int, e: int, t: int)
    requires 2 <= d && 0 <= t && NoDivisorBelow(d, t) && !Divides(d, t)
    requires !Divides(2, t) && !Divides(3, t)
    requires (d % 6 == 5 && e == d + 2) || (d % 6 == 1 && e == d + 4)
    ensures NoDivisorBelow(e, t)
  {
    forall m | 2 <= m < e
      ensures !Divides(m, t)
    {
      if d < m && Divides(m, t) {
        SkippedNumber(d, e, m);
        DividesTransitive(if m % 2 == 0 then 2 else 3, m, t);
      }
    }
  }

  // (0xa08a28acUL >> t) & 1
  function TableBit(t: int): int
    requires 0 <= t < 32
  {
    ((0xa08a_28ac as bv64 >> (t as bv6)) & 1) as int
  }

  ghost predicate InTable(t: int) {
    t in {2, 3, 5, 7, 11, 13, 17, 19, 23, 29, 31}
  }

  /** The bitmap lists exactly the primes below 32. */
  lemma TableIsRight(t: int)
    requires 0 <= t < 32
    ensures TableBit(t) == if IsPrime(t) then 1 else 0
  {
    if 2 <= t && !InTable(t) {
      assert Divides(2, t) || Divides(3, t) || Divides(5, t);
    }
    if InTable(t) {
      forall m | 2 <= m < t
        ensures !Divides(m, t)
      {
      }
    }
  }

  lemma SmallDivisors(t: int)
    requires 32 <= t && !Divides(2, t) && !Divides(3, t) && !Divides(5, t) && !Divides(7, t)
    ensures NoDivisorBelow(11, t)
  {
    forall m | 2 <= m < 11
      ensures !Divides(m, t)
    {
      if m % 2 == 0 && Divides(m, t) { DividesTransitive(2, m, t); }
      if m == 9 && Divides(m, t) { DividesTransitive(3, m, t); }
    }
  }

  lemma WheelTurns(d: int)
    requires d % 6 == 5
    ensures (d + 2) % 6 == 1 && (d + 2 + 4) % 6 == 5
  {
  }

  lemma SquareFits(t: int, d: int)
    requires 11 <= d <= t / d && 0 <= t
    ensures d + 6 <= t
  {
    Quotient(t, d);
    MulMono(d, t / d, d);
    MulMono(11, d, d);
  }

  /** One trial (src/gmp-6.2.0/bootstrap.c:60-65 and 67-72). */
  method TryDivisor(t: int, d: int) returns (stop: bool, composite: bool)
    requires 32 <= t <= ULONG_MAX && 11 <= d && NoDivisorBelow(d, t)
    ensures stop ==> (composite <==> !IsPrime(t))
    ensures !stop ==> !Divides(d, t) && d + 6 <= t
  {
    Quotient(t, d);
    var q := t / d;
    var r := t - q * d;
    if q < d {
      SquareRootSuffices(t, d);
      return true, false;
    }
    SquareFits(t, d);
    if r == 0 {
      assert Divides(d, t);
      return true, true;
    }
    return false, false;
  }

  /** The wheel (src/gmp-6.2.0/bootstrap.c:58-75). */
  method TrialDivision(t: int) returns (result: int)
    requires 32 <= t <= ULONG_MAX && NoDivisorBelow(11, t)
    ensures result != 0 <==> IsPrime(t)
  {
    assert !Divides(2, t) && !Divides(3, t);
    var d := 11;
    while true
      invariant 11 <= d <= t && d % 6 == 5
      invariant NoDivisorBelow(d, t)
      decreases t - d
    {
      var stop, composite := TryDivisor(t, d);
      if stop { return if composite then 0 else 1; }
      WheelTurns(d);
      WheelStep(d, d + 2, t);
      d := d + 2;
      stop, composite := TryDivisor(t, d);
      if stop { return if composite then 0 else 1; }
      WheelStep(d, d + 4, t);
      d := d + 4;
    }
  }

  /** src/gmp-6.2.0/bootstrap.c:41-76.  `d` stays a word because d * d <= t on every round. */
  method IsPrimeNumber(t: int) returns (result: int)
    requires 0 <= t <= ULONG_MAX
    ensures result != 0 <==> IsPrime(t)
  {
    if t < 32 {
      TableIsRight(t);
      return TableBit(t);
    }
    if t % 2 == 0 { assert Divides(2, t); return 0; }
    if t % 3 == 0 { assert Divides(3, t); return 0; }
    if t % 5 == 0 { assert Divides(5, t); return 0; }
    if t % 7 == 0 { assert Divides(7, t); return 0; }
    SmallDivisors(t);
    result := TrialDivision(t);
  }
}
