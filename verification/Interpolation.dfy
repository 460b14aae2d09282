/** Lagrange interpolation at zero over a prime field. */
module Interpolation {
  import opened Arith
  import opened Seqs

  /** cs[0] + cs[1] x + cs[2] x^2 + ... */
  function Eval(cs: seq<int>, x: int): int
  {
    if cs == [] then 0 else cs[0] + x * Eval(cs[1..], x)
  }

  /** Participant ids of one quorum: distinct non-zero residues. */
  ghost predicate ValidIds(ids: seq<int>, p: int)
  {
    Distinct(ids) && forall i :: 0 <= i < |ids| ==> 0 < ids[i] < p
  }

  function NumFactor(x: int): int -> int { (j: int) => if j == x then 1 else j }

  function DenFactor(x: int): int -> int { (j: int) => if j == x then 1 else j - x }

  /** The product of the other ids. */
  function Num(ids: seq<int>, x: int): int { Product(Map(NumFactor(x), ids)) }

  /** The product of the differences between the other ids and x. */
  function Den(ids: seq<int>, x: int): int { Product(Map(DenFactor(x), ids)) }

  /** The Lagrange basis value of x at zero: the quotient Num / Den modulo p. */
  function Lambda(ids: seq<int>, x: int, p: int): int
    requires p > 0
  {
    (Num(ids, x) * EuclidInverse(Den(ids, x), p)) % p
  }

  // ---- The quotient ------------------------------------------------------------------

  lemma ProductMapLast(f: int -> int, ids: seq<int>)
    requires ids != []
    ensures Product(Map(f, ids)) == Product(Map(f, Front(ids))) * f(Last(ids))
  {
    assert Front(Map(f, ids)) == Map(f, Front(ids));
  }

  /** Congruent arguments give congruent values. */
  lemma {:induction false} EvalCongruent(cs: seq<int>, x: int, y: int, p: int)
    requires p > 0 && x % p == y % p
    ensures Eval(cs, x) % p == Eval(cs, y) % p
  {
    if cs != [] {
      var a, b := Eval(cs[1..], x), Eval(cs[1..], y);
      EvalCongruent(cs[1..], x, y, p);
      hide Eval;
      Cong(x, y, a, b, p);
      Cong(cs[0], cs[0], x * a, y * b, p);
      EvalUnfold(cs, x);
      EvalUnfold(cs, y);
    }
  }

  lemma EvalUnfold(cs: seq<int>, x: int)
    requires cs != []
    ensures Eval(cs, x) == cs[0] + x * Eval(cs[1..], x)
  {
  }

  lemma {:induction false} EvalSnoc(cs: seq<int>, c: int, x: int)
    ensures Eval(cs + [c], x) == Eval(cs, x) + c * Pow(x, |cs|)
  {
    EvalUnfold(cs + [c], x);
    if cs == [] {
      assert (cs + [c])[1..] == [];
      assert x * 0 == 0 && c * 1 == c;
    } else {
      assert (cs + [c])[1..] == cs[1..] + [c];
      EvalSnoc(cs[1..], c, x);
      EvalUnfold(cs, x);
      MulAdd(x, Eval(cs[1..], x), c * Pow(x, |cs| - 1));
      SwapFactors(x, c, Pow(x, |cs| - 1));
    }
  }

  lemma {:induction false} DenNonZero(ids: seq<int>, x: int, p: int)
    requires IsPrime(p) && ValidIds(ids, p) && 0 < x < p
    ensures Den(ids, x) % p != 0
  {
    if ids == [] {
      ModUnique(1, 0, 1, p);
    } else {
      DenNonZero(Front(ids), x, p);
      ProductMapLast(DenFactor(x), ids);
      DifferenceNonZero(Last(ids), x, p);
      ModUnique(1, 0, 1, p);
      NonZeroProduct(Den(Front(ids), x), DenFactor(x)(Last(ids)), p);
    }
  }

  lemma DifferenceNonZero(j: int, x: int, p: int)
    requires p > 0 && 0 < x < p && 0 < j < p
    ensures j != x ==> (j - x) % p != 0
  {
    CongZero(j, x, p);
    ModUnique(x, 0, x, p);
    ModUnique(j, 0, j, p);
  }

  /** Lambda is the residue that gives Num when multiplied by Den, and the only one. */
  lemma LambdaQuotient(ids: seq<int>, x: int, p: int)
    requires IsPrime(p) && Den(ids, x) % p != 0
    ensures 0 <= Lambda(ids, x, p) < p
    ensures (Lambda(ids, x, p) * Den(ids, x)) % p == Num(ids, x) % p
    ensures forall l :: 0 <= l < p && (l * Den(ids, x)) % p == Num(ids, x) % p ==> l == Lambda(ids, x, p)
  {
    var n, d := Num(ids, x), Den(ids, x);
    var i := EuclidInverse(d, p);
    InverseWorks(d, p);
    ModSelf(n * i, p);
    Cong(n * i, (n * i) % p, d, d, p);
    ModUnique(1, 0, 1, p);
    Cong(d * i, 1, n, n, p);
    assert (n * i) * d == (d * i) * n;
    forall l | 0 <= l < p && (l * d) % p == n % p
      ensures l == Lambda(ids, x, p)
    {
      assert d * l == l * d && d * Lambda(ids, x, p) == Lambda(ids, x, p) * d;
      Cancel(d, l, Lambda(ids, x, p), p);
      ModUnique(l, 0, l, p);
      ModUnique(Lambda(ids, x, p), 0, Lambda(ids, x, p), p);
    }
  }

  lemma LambdaPermutation(ids: seq<int>, ids': seq<int>, x: int, p: int)
    requires p > 0 && multiset(ids) == multiset(ids')
    ensures Lambda(ids, x, p) == Lambda(ids', x, p)
  {
    MapPermutation(NumFactor(x), ids, ids');
    MapPermutation(DenFactor(x), ids, ids');
    ProductPermutation(Map(NumFactor(x), ids), Map(NumFactor(x), ids'));
    ProductPermutation(Map(DenFactor(x), ids), Map(DenFactor(x), ids'));
  }

  /** What leaving one participant a out of the quorum does to the basis value of another. */
  lemma LambdaDrop(ids: seq<int>, x: int, p: int)
    requires IsPrime(p) && ids != [] && ValidIds(ids, p) && x in Front(ids)
    ensures (Lambda(ids, x, p) * (Last(ids) - x)) % p == (Last(ids) * Lambda(Front(ids), x, p)) % p
  {
    var a, f := Last(ids), Front(ids);
    var l, l' := Lambda(ids, x, p), Lambda(f, x, p);
    var d, n := Den(f, x), Num(f, x);
    DenNonZero(ids, x, p);
    DenNonZero(f, x, p);
    LambdaQuotient(ids, x, p);
    LambdaQuotient(f, x, p);
    hide Lambda, Num, Den, ValidIds;
    assert Den(ids, x) == d * (a - x) && Num(ids, x) == n * a by { LastFactors(ids, x); }
    DropStep(l, l', d, n, a, a - x, p);
  }

  lemma LastFactors(ids: seq<int>, x: int)
    requires ids != [] && x in Front(ids) && forall i, j :: 0 <= i < j < |ids| ==> ids[i] != ids[j]
    ensures Den(ids, x) == Den(Front(ids), x) * (Last(ids) - x)
    ensures Num(ids, x) == Num(Front(ids), x) * Last(ids)
  {
    ProductMapLast(NumFactor(x), ids);
    ProductMapLast(DenFactor(x), ids);
  }

  /** Dividing n a by d f and n by d leaves l f and a l'. */
  lemma DropStep(l: int, l': int, d: int, n: int, a: int, f: int, p: int)
    requires IsPrime(p) && d % p != 0
    requires (l * (d * f)) % p == (n * a) % p && (l' * d) % p == n % p
    ensures (l * f) % p == (a * l') % p
  {
    CongMul(a, l' * d, n, p);
    assert d * (l * f) == l * (d * f);
    assert d * (a * l') == a * (l' * d) && a * n == n * a;
    Cancel(d, l * f, a * l', p);
  }

  // ---- Interpolating a polynomial ----------------------------------------------------

  /** The sum of Lambda(ids, x) * f(x) over x in xs, for the polynomial f with coefficients cs. */
  function PolySum(ids: seq<int>, xs: seq<int>, cs: seq<int>, p: int): int
    requires p > 0
  {
    if xs == [] then 0
    else PolySum(ids, Front(xs), cs, p) + Lambda(ids, Last(xs), p) * Eval(cs, Last(xs))
  }

  /** Synthetic division: the quotient of f(x) - f(a) by x - a. */
  function Quotient(cs: seq<int>, a: int): (q: seq<int>)
    ensures |q| == if |cs| <= 1 then 0 else |cs| - 1
  {
    if |cs| <= 1 then [] else [Eval(cs[1..], a)] + Quotient(cs[1..], a)
  }

  lemma {:induction false} QuotientDivides(cs: seq<int>, a: int, x: int)
    ensures Eval(cs, x) == Eval(cs, a) + (x - a) * Eval(Quotient(cs, a), x)
  {
    if |cs| > 1 {
      QuotientDivides(cs[1..], a, x);
      var t, u := Eval(cs[1..], a), Eval(Quotient(cs[1..], a), x);
      assert Quotient(cs, a)[1..] == Quotient(cs[1..], a);
      assert Eval(Quotient(cs, a), x) == t + x * u;
      QuotientStep(x, a, t, u);
    }
  }

  lemma QuotientStep(x: int, a: int, t: int, u: int)
    ensures x * (t + (x - a) * u) == a * t + (x - a) * (t + x * u)
  {
    MulAdd(x, t, (x - a) * u);
    MulAdd(x - a, t, x * u);
    SwapFactors(x, x - a, u);
    MulAdd(t, x, a);
  }

  /** The arithmetic of adding one more participant to both sides of the division. */
  lemma SplitStep(l: int, l': int, fx: int, fa: int, g: int, d: int, a: int,
                  s: int, u: int, w: int, s': int, u': int, w': int, p: int)
    requires p > 0 && fx == fa - d * g
    requires (l * d) % p == (a * l') % p
    requires s % p == (fa * u - a * w) % p
    requires s' == s + l * fx && u' == u + l && w' == w + l' * g
    ensures s' % p == (fa * u' - a * w') % p
  {
    CongMul(g, l * d, a * l', p);
    Cong(s, fa * u - a * w, g * (l * d), g * (a * l'), p);
    Cong(s - g * (l * d), fa * u - a * w - g * (a * l'), l * fa, l * fa, p);
    assert s' == s - g * (l * d) + l * fa;
    assert fa * u' - a * w' == fa * u - a * w - g * (a * l') + l * fa by {
      assert fa * u' == fa * u + l * fa;
      assert a * w' == a * w + g * (a * l');
    }
  }

  lemma PolySumUnfold(ids: seq<int>, xs: seq<int>, cs: seq<int>, p: int)
    requires p > 0
    ensures xs == [] ==> PolySum(ids, xs, cs, p) == 0
    ensures xs != [] ==> PolySum(ids, xs, cs, p)
                         == PolySum(ids, Front(xs), cs, p) + Lambda(ids, Last(xs), p) * Eval(cs, Last(xs))
    ensures xs != [] && cs == [1] ==> PolySum(ids, xs, cs, p)
                                      == PolySum(ids, Front(xs), cs, p) + Lambda(ids, Last(xs), p)
  {
    if xs != [] && cs == [1] {
      assert Eval(cs, Last(xs)) == 1;
    }
  }

  /** Dividing out the last participant: the sum over the others in terms of the smaller quorum. */
  lemma {:induction false} SplitOthers(ids: seq<int>, xs: seq<int>, cs: seq<int>, fa: int, p: int)
    requires IsPrime(p) && ids != [] && ValidIds(ids, p)
    requires forall i :: 0 <= i < |xs| ==> xs[i] in Front(ids)
    requires fa == Eval(cs, Last(ids))
    ensures var a := Last(ids);
      PolySum(ids, xs, cs, p) % p
      == (fa * PolySum(ids, xs, [1], p) - a * PolySum(Front(ids), xs, Quotient(cs, a), p)) % p
  {
    hide Lambda, Quotient, ValidIds, PolySum;
    var a := Last(ids);
    PolySumUnfold(ids, xs, cs, p);
    PolySumUnfold(ids, xs, [1], p);
    PolySumUnfold(Front(ids), xs, Quotient(cs, a), p);
    if xs == [] {
      assert fa * 0 - a * 0 == 0;
    } else {
      hide Eval, IsPrime;
      var x, f := Last(xs), Front(xs);
      SplitOthers(ids, f, cs, fa, p);
      LambdaDrop(ids, x, p);
      QuotientDivides(cs, a, x);
      var l, g := Lambda(ids, x, p), Eval(Quotient(cs, a), x);
      assert (x - a) * g == -((a - x) * g);
      SplitStep(l, Lambda(Front(ids), x, p), Eval(cs, x), fa, g, a - x, a,
                PolySum(ids, f, cs, p), PolySum(ids, f, [1], p), PolySum(Front(ids), f, Quotient(cs, a), p),
                PolySum(ids, xs, cs, p), PolySum(ids, xs, [1], p), PolySum(Front(ids), xs, Quotient(cs, a), p), p);
    }
  }

  lemma Split(ids: seq<int>, cs: seq<int>, fa: int, p: int)
    requires IsPrime(p) && ids != [] && ValidIds(ids, p)
    requires fa == Eval(cs, Last(ids))
    ensures var a := Last(ids);
      PolySum(ids, ids, cs, p) % p
      == (fa * PolySum(ids, ids, [1], p) - a * PolySum(Front(ids), Front(ids), Quotient(cs, a), p)) % p
  {
    hide Lambda, Quotient, ValidIds, PolySum;
    var a, f := Last(ids), Front(ids);
    SplitOthers(ids, f, cs, fa, p);
    PolySumUnfold(ids, ids, cs, p);
    PolySumUnfold(ids, ids, [1], p);
    SplitLast(Lambda(ids, a, p), fa, PolySum(ids, f, cs, p), PolySum(ids, f, [1], p),
              a * PolySum(f, f, Quotient(cs, a), p), PolySum(ids, ids, cs, p), PolySum(ids, ids, [1], p), p);
  }

  lemma SplitLast(l: int, fa: int, s: int, u: int, w: int, s': int, u': int, p: int)
    requires p > 0 && s % p == (fa * u - w) % p && s' == s + l * fa && u' == u + l
    ensures s' % p == (fa * u' - w) % p
  {
    var t := l * fa;
    Cong(s, fa * u - w, t, t, p);
    assert fa * u' == fa * u + t by {
      MulAdd(fa, u, l);
      assert fa * l == t;
    }
  }

  lemma {:induction false} PolySumSameLambda(ids: seq<int>, ids': seq<int>, xs: seq<int>, cs: seq<int>, p: int)
    requires p > 0 && multiset(ids) == multiset(ids')
    ensures PolySum(ids, xs, cs, p) == PolySum(ids', xs, cs, p)
  {
    if xs != [] {
      PolySumSameLambda(ids, ids', Front(xs), cs, p);
      LambdaPermutation(ids, ids', Last(xs), p);
    }
  }

  /** The last two participants may change places. */
  lemma PolySumSwap(r: seq<int>, a: int, b: int, cs: seq<int>, p: int)
    requires p > 0
    ensures PolySum(r + [a, b], r + [a, b], cs, p) == PolySum(r + [b, a], r + [b, a], cs, p)
  {
    var s, t := r + [a, b], r + [b, a];
    assert Front(s) == r + [a] && Front(Front(s)) == r;
    assert Front(t) == r + [b] && Front(Front(t)) == r;
    assert multiset(s) == multiset(r) + multiset{a, b} == multiset(t);
    PolySumSameLambda(s, t, r, cs, p);
    LambdaPermutation(s, t, a, p);
    LambdaPermutation(s, t, b, p);
  }

  /** The basis values of a quorum add up to one. */
  lemma {:induction false} PartitionOfUnity(ids: seq<int>, p: int)
    requires IsPrime(p) && ids != [] && ValidIds(ids, p)
    ensures PolySum(ids, ids, [1], p) % p == 1
    decreases |ids|
  {
    hide Num, Den, Lambda, Eval;
    var a := Last(ids);
    if |ids| == 1 {
      PolySumUnfold(ids, ids, [1], p);
      PolySumUnfold(ids, Front(ids), [1], p);
      SingletonLambda(ids, p);
      ModUnique(1, 0, 1, p);
    } else {
      var r, b := ids[..|ids| - 2], ids[|ids| - 2];
      var ids' := r + [a, b];
      assert ids == r + [b, a];
      assert ValidIds(ids', p);
      assert Front(ids) == r + [b] && Front(ids') == r + [a];
      PartitionOfUnity(Front(ids), p);
      PartitionOfUnity(Front(ids'), p);
      PolySumSwap(r, a, b, [1], p);
      PolySumSwap(r, a, b, [0, 1], p);
      FirstMoment(ids, p);
      FirstMoment(ids', p);
      UnityStep(a, b, PolySum(ids, ids, [1], p), p);
    }
  }

  lemma SingletonLambda(ids: seq<int>, p: int)
    requires IsPrime(p) && |ids| == 1 && ValidIds(ids, p)
    ensures Lambda(ids, ids[0], p) == 1
  {
    var a := ids[0];
    ProductMapLast(NumFactor(a), ids);
    ProductMapLast(DenFactor(a), ids);
    assert Num(ids, a) == 1 && Den(ids, a) == 1;
    ModUnique(1, 0, 1, p);
    LambdaQuotient(ids, a, p);
  }

  lemma UnityStep(a: int, b: int, u: int, p: int)
    requires IsPrime(p) && 0 < a < p && 0 < b < p && a != b
    requires (a * (u - 1)) % p == (b * (u - 1)) % p
    ensures u % p == 1
  {
    CongZero(a * (u - 1), b * (u - 1), p);
    assert a * (u - 1) - b * (u - 1) == (a - b) * (u - 1);
    DifferenceNonZero(a, b, p);
    ModUnique(0, 0, 0, p);
    assert (a - b) * 0 == 0;
    Cancel(a - b, u - 1, 0, p);
    ModUnique(1, 0, 1, p);
    CongZero(u, 1, p);
  }

  lemma FirstMoment(ids: seq<int>, p: int)
    requires IsPrime(p) && |ids| >= 2 && ValidIds(ids, p)
    requires PolySum(Front(ids), Front(ids), [1], p) % p == 1
    ensures PolySum(ids, ids, [0, 1], p) % p == (Last(ids) * (PolySum(ids, ids, [1], p) - 1)) % p
  {
    hide Lambda, ValidIds, PolySum;
    var a := Last(ids);
    assert [0, 1][1..] == [1] && [1][1..] == [];
    assert Eval([1], a) == 1;
    assert Eval([0, 1], a) == 0 + a * Eval([1], a);
    assert Quotient([0, 1], a) == [1];
    Split(ids, [0, 1], a, p);
    MomentStep(a, PolySum(ids, ids, [1], p), PolySum(Front(ids), Front(ids), [1], p), p);
  }

  lemma MomentStep(a: int, u: int, v: int, p: int)
    requires p > 1 && v % p == 1
    ensures (a * u - a * v) % p == (a * (u - 1)) % p
  {
    ModUnique(1, 0, 1, p);
    CongMul(a, v, 1, p);
    Cong(a * u, a * u, a * v, a * 1, p);
    assert a * u - a * 1 == a * (u - 1);
  }

  /** Interpolation at zero: any quorum larger than the degree recovers f(0). */
  lemma {:induction false} InterpolatesAtZero(ids: seq<int>, cs: seq<int>, p: int)
    requires IsPrime(p) && ValidIds(ids, p) && |cs| <= |ids|
    ensures PolySum(ids, ids, cs, p) % p == Eval(cs, 0) % p
    decreases |ids|
  {
    hide Lambda, PolySum;
    PolySumUnfold(ids, ids, cs, p);
    if ids != [] {
      var a, f := Last(ids), Front(ids);
      var g := Quotient(cs, a);
      Split(ids, cs, Eval(cs, a), p);
      PartitionOfUnity(ids, p);
      InterpolatesAtZero(f, g, p);
      QuotientDivides(cs, a, 0);
      RecoverStep(Eval(cs, a), a, PolySum(ids, ids, [1], p), PolySum(f, f, g, p), Eval(g, 0), p);
      assert (0 - a) * Eval(g, 0) == -(a * Eval(g, 0));
    }
  }

  lemma RecoverStep(fa: int, a: int, u: int, w: int, g0: int, p: int)
    requires p > 1 && u % p == 1 && w % p == g0 % p
    ensures (fa * u - a * w) % p == (fa - a * g0) % p
  {
    ModUnique(1, 0, 1, p);
    CongMul(fa, u, 1, p);
    CongMul(a, w, g0, p);
    Cong(fa * u, fa * 1, a * w, a * g0, p);
  }
}
