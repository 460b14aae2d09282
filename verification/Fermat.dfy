/** Fermat's little theorem, which the inverse by exponentiation rests on. */
module Fermat {
  import opened Arith
  import opened Seqs

  /** 1, 2, ..., n */
  function Upto(n: nat): (s: seq<int>)
    ensures |s| == n && forall i :: 0 <= i < n ==> s[i] == i + 1
  {
    seq(n, i => i + 1)
  }

  /** a, 2a, ..., na, each reduced modulo p */
  function Multiples(a: int, n: nat, p: int): (s: seq<int>)
    requires p > 0
    ensures |s| == n && forall i :: 0 <= i < n ==> s[i] == Multiple(a, i + 1, p)
  {
    seq(n, i => Multiple(a, i + 1, p))
  }

  function Multiple(a: int, i: int, p: int): int
    requires p > 0
  {
    (a * i) % p
  }

  lemma {:induction false} MultiplesProduct(a: int, n: nat, p: int)
    requires p > 0
    ensures Product(Multiples(a, n, p)) % p == (Pow(a, n) * Product(Upto(n))) % p
  {
    if n > 0 {
      MultiplesProduct(a, n - 1, p);
      assert Front(Multiples(a, n, p)) == Multiples(a, n - 1, p);
      assert Front(Upto(n)) == Upto(n - 1);
      NextMultiple(Product(Multiples(a, n - 1, p)), Pow(a, n - 1), Product(Upto(n - 1)), a, n, p);
    }
  }

  lemma NextMultiple(m: int, w: int, u: int, a: int, n: int, p: int)
    requires p > 0 && m % p == (w * u) % p
    ensures (m * ((a * n) % p)) % p == ((a * w) * (u * n)) % p
  {
    ModSelf(a * n, p);
    Cong(m, w * u, (a * n) % p, a * n, p);
    assert (w * u) * (a * n) == (a * w) * (u * n);
  }

  /** Multiplying by a non-zero residue permutes the non-zero residues. */
  lemma MultiplesPermute(a: int, p: int)
    requires IsPrime(p) && a % p != 0
    ensures multiset(Multiples(a, p - 1, p)) == multiset(Upto(p - 1))
  {
    var s, t := Multiples(a, p - 1, p), Upto(p - 1);
    MultiplesDistinct(a, p);
    hide IsPrime, Multiples, Multiple;
    forall x
      ensures x in s <==> x in t
    {
      if x in s {
        var i :| 0 <= i < |s| && s[i] == x;
        MultipleInRange(a, i + 1, p);
        assert t[x - 1] == x;
      }
      if x in t {
        MultipleHit(a, x, p);
      }
    }
    DistinctSameElements(s, t);
  }

  ghost predicate Unit(a: int, p: int)
  {
    IsPrime(p) && a % p != 0
  }

  lemma MultiplesDistinct(a: int, p: int)
    requires p > 0 && Unit(a, p)
    ensures Distinct(Multiples(a, p - 1, p))
  {
    hide Unit, Multiple, Multiples;
    var s := Multiples(a, p - 1, p);
    forall i, j | 0 <= i < j < |s|
      ensures s[i] != s[j]
    {
      if s[i] == s[j] {
        SameMultiple(a, i + 1, j + 1, p);
      }
    }
  }

  lemma SameMultiple(a: int, i: int, j: int, p: int)
    requires p > 0 && Unit(a, p) && 0 <= i < p && 0 <= j < p && Multiple(a, i, p) == Multiple(a, j, p)
    ensures i == j
  {
    Cancel(a, i, j, p);
    ModUnique(i, 0, i, p);
    ModUnique(j, 0, j, p);
  }

  lemma MultipleInRange(a: int, i: int, p: int)
    requires IsPrime(p) && a % p != 0 && 0 < i < p
    ensures 0 < Multiple(a, i, p) < p
  {
    ModUnique(i, 0, i, p);
    NonZeroProduct(a, i, p);
  }

  lemma MultipleHit(a: int, x: int, p: int)
    requires p > 0 && Unit(a, p) && 1 <= x < p
    ensures x in Multiples(a, p - 1, p)
  {
    hide Unit, Multiple, Multiples;
    var k := MultiplierOf(a, x, p);
    assert Multiples(a, p - 1, p)[k - 1] == x;
  }

  /** Every residue is a multiple of a unit. */
  lemma MultiplierOf(a: int, x: int, p: int) returns (k: nat)
    requires p > 0 && Unit(a, p) && 1 <= x < p
    ensures 1 <= k < p && Multiple(a, k, p) == x
  {
    InverseWorks(a, p);
    var i := EuclidInverse(a, p);
    k := (i * x) % p;
    ScaledInverse(a, i, x, k, p);
  }

  lemma ScaledInverse(a: int, i: int, x: int, k: int, p: int)
    requires p > 1 && (a * i) % p == 1 && 1 <= x < p && k == (i * x) % p
    ensures 1 <= k < p && (a * k) % p == x
  {
    ModSelf(i * x, p);
    CongMul(a, k, i * x, p);
    ScaledBack(a, i, x, p);
    ZeroMultiple(a, k, p);
  }

  lemma ScaledBack(a: int, i: int, x: int, p: int)
    requires p > 1 && (a * i) % p == 1 && 1 <= x < p
    ensures (a * (i * x)) % p == x
  {
    ModUnique(1, 0, 1, p);
    Cong(a * i, 1, x, x, p);
    MulAssoc(a, i, x);
    ModUnique(x, 0, x, p);
  }

  lemma ZeroMultiple(a: int, k: int, p: int)
    requires p > 0
    ensures k == 0 ==> (a * k) % p == 0
  {
    if k == 0 {
      ModUnique(0, 0, 0, p);
    }
  }

  lemma {:induction false} FactorialNonZero(n: nat, p: int)
    requires IsPrime(p) && n < p
    ensures Product(Upto(n)) % p != 0
  {
    if n == 0 {
      ModUnique(1, 0, 1, p);
    } else {
      FactorialNonZero(n - 1, p);
      assert Front(Upto(n)) == Upto(n - 1);
      ModUnique(n, 0, n, p);
      NonZeroProduct(Product(Upto(n - 1)), n, p);
    }
  }

  /** Fermat's little theorem. */
  lemma LittleTheorem(a: int, p: int)
    requires IsPrime(p) && a % p != 0
    ensures Pow(a, p - 1) % p == 1
  {
    hide Product, Pow;
    var f := Product(Upto(p - 1));
    MultiplesProduct(a, p - 1, p);
    MultiplesPermute(a, p);
    ProductPermutation(Multiples(a, p - 1, p), Upto(p - 1));
    FactorialNonZero(p - 1, p);
    CancelFactorial(f, Pow(a, p - 1), p);
  }

  lemma CancelFactorial(f: int, w: int, p: int)
    requires IsPrime(p) && f % p != 0 && f % p == (w * f) % p
    ensures w % p == 1
  {
    assert w * f == f * w && f * 1 == f;
    Cancel(f, w, 1, p);
    ModUnique(1, 0, 1, p);
  }

  /** The power p - 2 is the same inverse that extended Euclid finds. */
  lemma FermatInverseIsEuclid(a: int, p: int)
    requires IsPrime(p) && a % p != 0
    ensures Pow(a % p, p - 2) % p == EuclidInverse(a, p)
    ensures (a * (Pow(a % p, p - 2) % p)) % p == 1
  {
    LittleTheorem(a, p);
    ModSelf(a, p);
    PowCong(a % p, a, p - 2, p);
    var x := Pow(a, p - 2) % p;
    ModSelf(Pow(a, p - 2), p);
    CongMul(a, x, Pow(a, p - 2), p);
    assert a * Pow(a, p - 2) == Pow(a, p - 1);
    InverseWorks(a, p);
    InverseUnique(a, x, EuclidInverse(a, p), p);
  }
}
