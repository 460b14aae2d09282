/** Modular arithmetic over the integers: the facts every other module rests on. */
module Arith {

  /** BigInt division of the source language: it rounds towards zero. */
  function TruncDiv(a: int, b: int): int
    requires b > 0
  {
    if a >= 0 then a / b else -((-a) / b)
  }

  /** BigInt remainder of the source language: it takes the sign of the dividend. */
  function TruncRem(a: int, b: int): int
    requires b > 0
  {
    a - b * TruncDiv(a, b)
  }

  predicate Divides(d: int, n: int)
    requires d > 0
  {
    n % d == 0
  }

  ghost predicate IsPrime(p: int)
  {
    p >= 2 && forall d :: 2 <= d < p ==> !Divides(d, p)
  }

  function Pow(b: int, e: nat): int
  {
    if e == 0 then 1 else b * Pow(b, e - 1)
  }

  function Gcd(a: nat, b: nat): nat
    decreases b
  {
    if b == 0 then a else Gcd(b, a % b)
  }

  // ---- Remainders --------------------------------------------------------------------

  lemma SmallMultiple(m: int, t: int)
    requires m > 0 && -m < m * t < m
    ensures t == 0
  {
  }

  /** The quotient and remainder are unique. */
  lemma ModUnique(a: int, q: int, r: int, m: int)
    requires m > 0 && a == m * q + r && 0 <= r < m
    ensures a % m == r && a / m == q
  {
    assert a == m * (a / m) + a % m;
    assert m * (a / m - q) == r - a % m;
    SmallMultiple(m, a / m - q);
  }

  /** Numbers that differ by a multiple of m have the same remainder. */
  lemma ModShift(a: int, b: int, k: int, m: int)
    requires m > 0 && a == b + m * k
    ensures a % m == b % m
  {
    assert a == m * (b / m + k) + b % m;
    ModUnique(a, b / m + k, b % m, m);
  }

  /** Numbers with the same remainder differ by a multiple of m. */
  lemma ModDiff(a: int, b: int, m: int) returns (k: int)
    requires m > 0 && a % m == b % m
    ensures a == b + m * k
  {
    k := a / m - b / m;
    assert m * k == m * (a / m) - m * (b / m);
  }

  lemma ModSelf(a: int, m: int)
    requires m > 0
    ensures (a % m) % m == a % m
  {
    ModUnique(a % m, 0, a % m, m);
  }

  predicate Congruent(a: int, b: int, m: int)
    requires m > 0
  {
    a % m == b % m
  }

  /** Congruence is compatible with the ring operations. */
  lemma Cong(a: int, a': int, b: int, b': int, m: int)
    requires m > 0 && a % m == a' % m && b % m == b' % m
    ensures (a + b) % m == (a' + b') % m
    ensures (a - b) % m == (a' - b') % m
    ensures (a * b) % m == (a' * b') % m
  {
    var k := ModDiff(a, a', m);
    var l := ModDiff(b, b', m);
    ModShift(a + b, a' + b', k + l, m);
    ModShift(a - b, a' - b', k - l, m);
    MulWitness(a', k, b', l, m);
    ModShift(a * b, a' * b', k * b' + a' * l + m * (k * l), m);
  }

  lemma MulWitness(a: int, k: int, b: int, l: int, m: int)
    ensures (a + m * k) * (b + m * l) == a * b + m * (k * b + a * l + m * (k * l))
  {
  }

  lemma CongMul(c: int, a: int, b: int, m: int)
    requires m > 0 && a % m == b % m
    ensures (c * a) % m == (c * b) % m
  {
    Cong(c, c, a, b, m);
  }

  lemma CongZero(a: int, b: int, m: int)
    requires m > 0
    ensures a % m == b % m <==> (a - b) % m == 0
  {
    if a % m == b % m {
      var k := ModDiff(a, b, m);
      ModShift(a - b, 0, k, m);
      ModUnique(0, 0, 0, m);
    }
    if (a - b) % m == 0 {
      ModShift(a, b, (a - b) / m, m);
    }
  }

  // ---- Divisibility and primes -----------------------------------------------------

  lemma DividesWitness(d: int, n: int, k: int)
    requires d > 0 && n == d * k
    ensures Divides(d, n)
  {
    ModUnique(n, k, 0, d);
  }

  lemma MulAdd(a: int, b: int, c: int)
    ensures a * (b + c) == a * b + a * c
    ensures (b + c) * a == b * a + c * a
    ensures a * (b - c) == a * b - a * c
  {
  }

  lemma SwapFactors(a: int, b: int, c: int)
    ensures a * (b * c) == b * (a * c)
  {
  }

  lemma MulAssoc(a: int, b: int, c: int)
    ensures (a * b) * c == a * (b * c)
  {
  }

  lemma {:induction false} GcdDivides(a: nat, b: nat)
    requires a > 0 || b > 0
    ensures Gcd(a, b) > 0 && Divides(Gcd(a, b), a) && Divides(Gcd(a, b), b)
    decreases b
  {
    if b == 0 {
      DividesWitness(a, a, 1);
      DividesWitness(a, 0, 0);
    } else {
      GcdDivides(b, a % b);
      var g := Gcd(b, a % b);
      hide Divides;
      QuotientOf(g, b);
      QuotientOf(g, a % b);
      DivMod(a, b);
      CombineMultiples(a, b / g, (a % b) / g, a / b, b, a % b, g);
    }
  }

  lemma QuotientOf(d: int, n: int)
    requires d > 0 && Divides(d, n)
    ensures n == d * (n / d)
  {
  }

  lemma DivMod(a: int, b: int)
    requires b > 0
    ensures a == b * (a / b) + a % b
  {
  }

  /** What divides b and the remainder divides a. */
  lemma CombineMultiples(a: int, u: int, v: int, q: int, b: int, r: int, g: int)
    requires g > 0 && b == g * u && r == g * v && a == b * q + r
    ensures Divides(g, a)
  {
    MulAssoc(g, u, q);
    MulAdd(g, u * q, v);
    DividesWitness(g, a, u * q + v);
  }

  /** A prime shares no factor with a number it does not divide. */
  lemma GcdPrime(a: nat, p: int)
    requires IsPrime(p) && a % p != 0
    ensures Gcd(a, p) == 1
  {
    GcdDivides(a, p);
    var g := Gcd(a, p);
    if g > p {
      ModUnique(p, 0, p, g);
    }
    assert g != p;
    if 2 <= g < p {
      assert false;
    }
  }

  lemma ProductWithZero(a: int, b: int, p: int)
    requires p > 0 && a % p == 0
    ensures (a * b) % p == 0 && (b * a) % p == 0
  {
    ModUnique(0, 0, 0, p);
    Cong(a, 0, b, b, p);
  }

  // ---- Extended Euclid ---------------------------------------------------------------

  /** The Bezout coefficient that the extended Euclidean loop ends with. */
  function Egcd(r0: nat, r1: nat, s0: int, s1: int): int
    decreases r1
  {
    if r1 == 0 then s0 else Egcd(r1, r0 % r1, s1, s0 - (r0 / r1) * s1)
  }

  /** The value of extended Euclid on (a mod m, m), reduced: the inverse when there is one. */
  function EuclidInverse(a: int, m: int): int
    requires m > 0
  {
    Egcd(a % m, m, 1, 0) % m
  }

  lemma {:induction false} EgcdBezout(a: int, m: int, r0: nat, r1: nat, s0: int, s1: int)
    requires m > 0 && r0 % m == (a * s0) % m && r1 % m == (a * s1) % m
    ensures (a * Egcd(r0, r1, s0, s1)) % m == Gcd(r0, r1) % m
    decreases r1
  {
    if r1 != 0 {
      var q := r0 / r1;
      DivMod(r0, r1);
      EuclidKeeps(a, m, r0, r1, s0, s1, q);
      assert r0 - q * r1 == r0 % r1;
      EgcdBezout(a, m, r1, r0 % r1, s1, s0 - q * s1);
    }
  }

  /** One turn of the loop keeps each remainder congruent to a times its coefficient. */
  lemma EuclidKeeps(a: int, m: int, r0: int, r1: int, s0: int, s1: int, q: int)
    requires m > 0 && r0 % m == (a * s0) % m && r1 % m == (a * s1) % m
    ensures (r0 - q * r1) % m == (a * (s0 - q * s1)) % m
  {
    CongMul(q, r1, a * s1, m);
    Cong(r0, a * s0, q * r1, q * (a * s1), m);
    assert a * s0 - q * (a * s1) == a * (s0 - q * s1);
  }

  /** a times the Euclidean value is the greatest common divisor, modulo m. */
  lemma EuclidInverseIsBezout(a: int, m: int)
    requires m > 0
    ensures 0 <= EuclidInverse(a, m) < m
    ensures (a * EuclidInverse(a, m)) % m == Gcd(a % m, m) % m
  {
    ModSelf(a, m);
    ModShift(m, 0, 1, m);
    EgcdBezout(a, m, a % m, m, 1, 0);
    var e := Egcd(a % m, m, 1, 0);
    ModSelf(e, m);
    CongMul(a, e % m, e, m);
  }

  /** Modulo a prime every non-zero residue has an inverse, and Euclid finds it. */
  lemma InverseWorks(a: int, p: int)
    requires IsPrime(p) && a % p != 0
    ensures 0 <= EuclidInverse(a, p) < p
    ensures (a * EuclidInverse(a, p)) % p == 1
  {
    EuclidInverseIsBezout(a, p);
    ModSelf(a, p);
    GcdPrime(a % p, p);
    ModUnique(1, 0, 1, p);
  }

  /** A factor that is not zero modulo a prime can be cancelled. */
  lemma Cancel(c: int, a: int, b: int, p: int)
    requires IsPrime(p) && c % p != 0 && (c * a) % p == (c * b) % p
    ensures a % p == b % p
  {
    InverseWorks(c, p);
    var i := EuclidInverse(c, p);
    CancelOne(c, i, a, p);
    CancelOne(c, i, b, p);
    CongMul(i, c * a, c * b, p);
  }

  lemma CancelOne(c: int, i: int, a: int, p: int)
    requires p > 1 && (c * i) % p == 1
    ensures (i * (c * a)) % p == a % p
  {
    ModUnique(1, 0, 1, p);
    Cong(c * i, 1, a, a, p);
    assert i * (c * a) == (c * i) * a;
  }

  lemma NonZeroProduct(a: int, b: int, p: int)
    requires IsPrime(p) && a % p != 0 && b % p != 0
    ensures (a * b) % p != 0
  {
    if (a * b) % p == 0 {
      ModUnique(0, 0, 0, p);
      assert a * 0 == 0;
      Cancel(a, b, 0, p);
    }
  }

  /** A modular inverse is unique. */
  lemma InverseUnique(a: int, x: int, y: int, p: int)
    requires IsPrime(p) && a % p != 0
    requires 0 <= x < p && 0 <= y < p && (a * x) % p == 1 && (a * y) % p == 1
    ensures x == y
  {
    Cancel(a, x, y, p);
    ModUnique(x, 0, x, p);
    ModUnique(y, 0, y, p);
  }

  // ---- Powers ------------------------------------------------------------------------

  lemma {:induction false} PowDouble(b: int, e: nat)
    ensures Pow(b, 2 * e) == Pow(b * b, e)
  {
    if e > 0 {
      PowDouble(b, e - 1);
      assert Pow(b, 2 * e) == b * Pow(b, 2 * e - 1) == b * (b * Pow(b, 2 * (e - 1)));
      assert b * (b * Pow(b, 2 * (e - 1))) == (b * b) * Pow(b, 2 * (e - 1));
    }
  }

  lemma {:induction false} PowCong(a: int, b: int, e: nat, m: int)
    requires m > 0 && a % m == b % m
    ensures Pow(a, e) % m == Pow(b, e) % m
  {
    if e > 0 {
      PowCong(a, b, e - 1, m);
      Cong(a, b, Pow(a, e - 1), Pow(b, e - 1), m);
    }
  }
}
