/**
 * Shares dealt by place in a list and combined by node id. A quorum with ids a, b, ... that holds the
 * values of a polynomial at x, y, ... recovers its constant term when these are alike enough: exactly how
 * alike is what this module says.
 */
module Placement {
  import opened Arith
  import opened Seqs
  import opened Interpolation
  import opened Shamir

  /** Share k carries the id ids[k] and the value of the polynomial at xs[k]. */
  function PlacedShares(ids: seq<int>, xs: seq<int>, cs: seq<int>, p: int): (shares: seq<Share>)
    requires p > 0 && |xs| == |ids|
    ensures |shares| == |ids|
    ensures forall k :: 0 <= k < |ids| ==> shares[k] == Share(ids[k], Eval(cs, xs[k]) % p)
  {
    seq(|ids|, k requires 0 <= k < |ids| => Share(ids[k], Eval(cs, xs[k]) % p))
  }

  /** Combining them gives the constant term. */
  ghost predicate Recovers(ids: seq<int>, xs: seq<int>, cs: seq<int>, p: int)
    requires p > 0 && |xs| == |ids| && cs != []
  {
    Congruent(Weighted(ids, PlacedShares(ids, xs, cs, p), p), cs[0], p)
  }

  /** The sum of Lambda(ids, a) * x^m over the pairs of qs and xs. */
  function Moment(ids: seq<int>, qs: seq<int>, xs: seq<int>, m: nat, p: int): int
    requires p > 0 && |xs| == |qs|
  {
    if qs == [] then 0
    else Moment(ids, Front(qs), Front(xs), m, p) + Lambda(ids, Last(qs), p) * Pow(Last(xs), m)
  }

  /** The sum of Lambda(ids, a) * x^m * f(x). */
  function Spread(ids: seq<int>, qs: seq<int>, xs: seq<int>, cs: seq<int>, m: nat, p: int): int
    requires p > 0 && |xs| == |qs|
  {
    if qs == [] then 0
    else
      Spread(ids, Front(qs), Front(xs), cs, m, p)
      + Lambda(ids, Last(qs), p) * (Pow(Last(xs), m) * Eval(cs, Last(xs)))
  }

  /** cs[0] times moment m, plus cs[1] times moment m + 1, and so on. */
  function Moments(ids: seq<int>, xs: seq<int>, cs: seq<int>, m: nat, p: int): int
    requires p > 0 && |xs| == |ids|
  {
    if cs == [] then 0 else cs[0] * Moment(ids, ids, xs, m, p) + Moments(ids, xs, cs[1..], m + 1, p)
  }

  lemma {:induction false} SpreadUnfold(ids: seq<int>, qs: seq<int>, xs: seq<int>, cs: seq<int>, m: nat, p: int)
    requires p > 0 && |xs| == |qs| && cs != []
    ensures Spread(ids, qs, xs, cs, m, p) == cs[0] * Moment(ids, qs, xs, m, p) + Spread(ids, qs, xs, cs[1..], m + 1, p)
  {
    hide Lambda;
    if qs != [] {
      var x := Last(xs);
      SpreadUnfold(ids, Front(qs), Front(xs), cs, m, p);
      EvalUnfold(cs, x);
      TermStep(Lambda(ids, Last(qs), p), Pow(x, m), cs[0], x, Eval(cs[1..], x));
      MulAdd(cs[0], Moment(ids, Front(qs), Front(xs), m, p), Lambda(ids, Last(qs), p) * Pow(x, m));
    }
  }

  lemma TermStep(l: int, w: int, c: int, x: int, e: int)
    ensures l * (w * (c + x * e)) == c * (l * w) + l * ((x * w) * e)
  {
    MulAdd(w, c, x * e);
    MulAdd(l, w * c, w * (x * e));
    SwapFactors(c, l, w);
    assert w * c == c * w;
    SwapFactors(w, x, e);
    MulAssoc(x, w, e);
  }

  lemma {:induction false} SpreadEmpty(ids: seq<int>, qs: seq<int>, xs: seq<int>, m: nat, p: int)
    requires p > 0 && |xs| == |qs|
    ensures Spread(ids, qs, xs, [], m, p) == 0
  {
    if qs != [] {
      SpreadEmpty(ids, Front(qs), Front(xs), m, p);
    }
  }

  lemma {:induction false} SpreadIsMoments(ids: seq<int>, xs: seq<int>, cs: seq<int>, m: nat, p: int)
    requires p > 0 && |xs| == |ids|
    ensures Spread(ids, ids, xs, cs, m, p) == Moments(ids, xs, cs, m, p)
  {
    hide Lambda;
    if cs == [] {
      SpreadEmpty(ids, ids, xs, m, p);
    } else {
      SpreadUnfold(ids, ids, xs, cs, m, p);
      SpreadIsMoments(ids, xs, cs[1..], m + 1, p);
    }
  }

  lemma {:induction false} WeightedIsSpread(ids: seq<int>, qs: seq<int>, xs: seq<int>, cs: seq<int>, p: int)
    requires p > 0 && |xs| == |qs|
    ensures Congruent(Weighted(ids, PlacedShares(qs, xs, cs, p), p), Spread(ids, qs, xs, cs, 0, p), p)
  {
    hide Lambda, Eval;
    if qs != [] {
      var f, g, x := Front(qs), Front(xs), Last(xs);
      WeightedIsSpread(ids, f, g, cs, p);
      assert Front(PlacedShares(qs, xs, cs, p)) == PlacedShares(f, g, cs, p);
      var l, e := Lambda(ids, Last(qs), p), Eval(cs, x);
      ModSelf(e, p);
      CongMul(l, e % p, e, p);
      Cong(Weighted(ids, PlacedShares(f, g, cs, p), p), Spread(ids, f, g, cs, 0, p), l * (e % p), l * e, p);
      assert Pow(x, 0) * e == e;
    }
  }

  /** The moment of order zero is the sum of the Lagrange values. */
  lemma {:induction false} MomentZero(ids: seq<int>, qs: seq<int>, xs: seq<int>, p: int)
    requires p > 0 && |xs| == |qs|
    ensures Moment(ids, qs, xs, 0, p) == PolySum(ids, qs, [1], p)
  {
    hide Lambda, PolySum;
    PolySumUnfold(ids, qs, [1], p);
    if qs != [] {
      MomentZero(ids, Front(qs), Front(xs), p);
      assert Pow(Last(xs), 0) == 1;
    }
  }

  /** What combining gives: the constant term, and each further coefficient times its moment. */
  lemma {:induction false} CombinesTo(ids: seq<int>, xs: seq<int>, cs: seq<int>, p: int)
    requires IsPrime(p) && ids != [] && ValidIds(ids, p) && |xs| == |ids| && cs != []
    ensures Congruent(Weighted(ids, PlacedShares(ids, xs, cs, p), p), cs[0] + Moments(ids, xs, cs[1..], 1, p), p)
  {
    hide *;
    Positive(p);
    var s := Spread(ids, ids, xs, cs, 0, p);
    WeightedIsSpread(ids, ids, xs, cs, p);
    SpreadSplits(ids, xs, cs, p);
    Chain(Weighted(ids, PlacedShares(ids, xs, cs, p), p), s, cs[0] + Moments(ids, xs, cs[1..], 1, p), p);
  }

  lemma Chain(a: int, b: int, c: int, p: int)
    requires p > 0 && Congruent(a, b, p) && Congruent(b, c, p)
    ensures Congruent(a, c, p)
  {
  }

  lemma {:induction false} SpreadSplits(ids: seq<int>, xs: seq<int>, cs: seq<int>, p: int)
    requires IsPrime(p) && ids != [] && ValidIds(ids, p) && |xs| == |ids| && cs != []
    ensures Congruent(Spread(ids, ids, xs, cs, 0, p), cs[0] + Moments(ids, xs, cs[1..], 1, p), p)
  {
    hide *;
    Positive(p);
    var c, u, rest := cs[0], Moment(ids, ids, xs, 0, p), Moments(ids, xs, cs[1..], 1, p);
    SpreadIsMoments(ids, xs, cs[1..], 1, p);
    SpreadUnfold(ids, ids, xs, cs, 0, p);
    Unity(ids, xs, p);
    FirstTerm(c, u, rest, p);
  }

  lemma {:induction false} Unity(ids: seq<int>, xs: seq<int>, p: int)
    requires IsPrime(p) && ids != [] && ValidIds(ids, p) && |xs| == |ids|
    ensures Congruent(Moment(ids, ids, xs, 0, p), 1, p)
  {
    hide IsPrime, ValidIds, Moment;
    Positive(p);
    MomentZero(ids, ids, xs, p);
    PartitionOfUnity(ids, p);
    ModUnique(1, 0, 1, p);
  }

  lemma FirstTerm(c: int, u: int, rest: int, p: int)
    requires p > 0 && Congruent(u, 1, p)
    ensures Congruent(c * u + rest, c + rest, p)
  {
    CongMul(c, u, 1, p);
    Cong(c * u, c, rest, rest, p);
  }

  ghost predicate MomentsVanish(ids: seq<int>, xs: seq<int>, t: nat, p: int)
    requires p > 0 && |xs| == |ids|
  {
    forall m :: 1 <= m < t ==> Congruent(Moment(ids, ids, xs, m, p), 0, p)
  }

  lemma {:induction false} VanishingMoments(ids: seq<int>, xs: seq<int>, cs: seq<int>, m: nat, p: int)
    requires p > 0 && |xs| == |ids| && m >= 1 && MomentsVanish(ids, xs, m + |cs|, p)
    ensures Congruent(Moments(ids, xs, cs, m, p), 0, p)
  {
    hide Moment;
    if cs != [] {
      VanishingMoments(ids, xs, cs[1..], m + 1, p);
      AddMultiple(cs[0], Moment(ids, ids, xs, m, p), Moments(ids, xs, cs[1..], m + 1, p), p);
    }
  }

  lemma AddMultiple(c: int, u: int, rest: int, p: int)
    requires p > 0 && Congruent(u, 0, p) && Congruent(rest, 0, p)
    ensures Congruent(c * u + rest, 0, p)
  {
    CongMul(c, u, 0, p);
    Cong(c * u, 0, rest, 0, p);
  }

  /** n zeros, and then a one. */
  function Monomial(n: nat, total: nat): (cs: seq<int>)
    requires n < total
    ensures |cs| == total && cs[n] == 1 && forall i :: 0 <= i < total && i != n ==> cs[i] == 0
  {
    seq(total, i => if i == n then 1 else 0)
  }

  lemma {:induction false} MomentsOfMonomial(ids: seq<int>, xs: seq<int>, n: nat, total: nat, m: nat, p: int)
    requires p > 0 && |xs| == |ids| && n < total
    ensures Moments(ids, xs, Monomial(n, total), m, p) == Moment(ids, ids, xs, m + n, p)
  {
    hide Moment;
    var cs := Monomial(n, total);
    if n == 0 {
      MomentsOfZeros(ids, xs, cs[1..], m + 1, p);
    } else {
      assert cs[1..] == Monomial(n - 1, total - 1);
      MomentsOfMonomial(ids, xs, n - 1, total - 1, m + 1, p);
    }
  }

  lemma {:induction false} MomentsOfZeros(ids: seq<int>, xs: seq<int>, cs: seq<int>, m: nat, p: int)
    requires p > 0 && |xs| == |ids| && forall i :: 0 <= i < |cs| ==> cs[i] == 0
    ensures Moments(ids, xs, cs, m, p) == 0
  {
    hide Moment;
    if cs != [] {
      MomentsOfZeros(ids, xs, cs[1..], m + 1, p);
    }
  }

  /**
   * A quorum of any size recovers every secret shared with t coefficients exactly when the moments of
   * orders 1 to t - 1 vanish, which takes only the ids and the places to find out.
   */
  lemma {:induction false} RecoversExactly(ids: seq<int>, xs: seq<int>, t: nat, p: int)
    requires IsPrime(p) && ids != [] && ValidIds(ids, p) && |xs| == |ids| && t >= 1
    ensures (forall cs: seq<int> :: |cs| == t ==> Recovers(ids, xs, cs, p)) <==> MomentsVanish(ids, xs, t, p)
  {
    hide *;
    Positive(p);
    if MomentsVanish(ids, xs, t, p) {
      forall cs: seq<int> | |cs| == t
        ensures Recovers(ids, xs, cs, p)
      {
        VanishingRecovers(ids, xs, cs, p);
      }
    }
    if forall cs: seq<int> :: |cs| == t ==> Recovers(ids, xs, cs, p) {
      EachVanishes(ids, xs, t, p);
    }
  }

  lemma {:induction false} VanishingRecovers(ids: seq<int>, xs: seq<int>, cs: seq<int>, p: int)
    requires IsPrime(p) && ids != [] && ValidIds(ids, p) && |xs| == |ids| && cs != []
    requires MomentsVanish(ids, xs, |cs|, p)
    ensures Recovers(ids, xs, cs, p)
  {
    hide IsPrime, ValidIds, Weighted, Moments, MomentsVanish, Congruent, PlacedShares, Eval, Lambda, Pow;
    Positive(p);
    CombinesTo(ids, xs, cs, p);
    VanishingMoments(ids, xs, cs[1..], 1, p);
    AddZero(cs[0], Moments(ids, xs, cs[1..], 1, p), p);
    Chain(Weighted(ids, PlacedShares(ids, xs, cs, p), p), cs[0] + Moments(ids, xs, cs[1..], 1, p), cs[0], p);
  }

  lemma {:induction false} EachVanishes(ids: seq<int>, xs: seq<int>, t: nat, p: int)
    requires IsPrime(p) && ids != [] && ValidIds(ids, p) && |xs| == |ids| && t >= 1
    requires forall cs: seq<int> :: |cs| == t ==> Recovers(ids, xs, cs, p)
    ensures MomentsVanish(ids, xs, t, p)
  {
    hide IsPrime, ValidIds, Moment, Recovers;
    Positive(p);
    forall m | 1 <= m < t
      ensures Congruent(Moment(ids, ids, xs, m, p), 0, p)
    {
      assert Recovers(ids, xs, Monomial(m, t), p);
      MonomialRecovers(ids, xs, m, t, p);
    }
  }

  lemma {:induction false} MonomialRecovers(ids: seq<int>, xs: seq<int>, m: nat, t: nat, p: int)
    requires IsPrime(p) && ids != [] && ValidIds(ids, p) && |xs| == |ids| && 1 <= m < t
    requires Recovers(ids, xs, Monomial(m, t), p)
    ensures Congruent(Moment(ids, ids, xs, m, p), 0, p)
  {
    hide IsPrime, ValidIds, Weighted, Moment, Moments, Congruent, PlacedShares, Eval, Lambda, Pow;
    Positive(p);
    var cs := Monomial(m, t);
    CombinesTo(ids, xs, cs, p);
    assert cs[1..] == Monomial(m - 1, t - 1);
    MomentsOfMonomial(ids, xs, m - 1, t - 1, 1, p);
    Converse(Weighted(ids, PlacedShares(ids, xs, cs, p), p), Moment(ids, ids, xs, m, p), 0, p);
  }

  lemma Converse(a: int, b: int, c: int, p: int)
    requires p > 0 && Congruent(a, b, p) && Congruent(a, c, p)
    ensures Congruent(b, c, p)
  {
  }

  lemma AddZero(a: int, b: int, p: int)
    requires p > 0 && Congruent(b, 0, p)
    ensures Congruent(a + b, a, p)
  {
    Cong(a, a, b, 0, p);
  }

  // ---- Two nodes ---------------------------------------------------------------------

  /** Two nodes with ids a and b, holding the values at x and y, recover exactly when a : b is x : y. */
  lemma {:induction false} PairExactly(a: int, b: int, x: int, y: int, p: int)
    requires IsPrime(p) && ValidIds([a, b], p)
    ensures (forall cs: seq<int> :: |cs| == 2 ==> Recovers([a, b], [x, y], cs, p)) <==> (b * x) % p == (a * y) % p
  {
    hide Moment, Recovers, Congruent;
    var ids, xs := [a, b], [x, y];
    RecoversExactly(ids, xs, 2, p);
    PairMoment(a, b, x, y, p);
    assert MomentsVanish(ids, xs, 2, p) <==> Congruent(Moment(ids, ids, xs, 1, p), 0, p);
  }

  lemma {:induction false} PairMoment(a: int, b: int, x: int, y: int, p: int)
    requires IsPrime(p) && ValidIds([a, b], p)
    ensures Congruent(Moment([a, b], [a, b], [x, y], 1, p), 0, p) <==> (b * x) % p == (a * y) % p
  {
    var ids := [a, b];
    assert ids[0] == a && ids[1] == b && a != b && 0 < a < p && 0 < b < p;
    var l, k := Lambda(ids, a, p), Lambda(ids, b, p);
    PairQuotients(a, b, p);
    DifferenceNonZero(b, a, p);
    hide Lambda, ValidIds, Moment;
    TwoTerms(ids, a, b, x, y, p);
    PairTerms(l, k, a, b, x, y, p);
    CongZero(b * x, a * y, p);
    ZeroTimes(b - a, l * x + k * y, p);
    ModUnique(0, 0, 0, p);
  }

  /** The same for one polynomial: it must be constant, or the ids proportional to the places. */
  lemma {:induction false} PairRecovers(a: int, b: int, x: int, y: int, cs: seq<int>, p: int)
    requires IsPrime(p) && ValidIds([a, b], p) && |cs| == 2
    ensures Recovers([a, b], [x, y], cs, p) <==> cs[1] % p == 0 || (b * x) % p == (a * y) % p
  {
    hide *;
    Positive(p);
    var ids, xs := [a, b], [x, y];
    var w, m := Weighted(ids, PlacedShares(ids, xs, cs, p), p), Moment(ids, ids, xs, 1, p);
    CombinesTo(ids, xs, cs, p);
    TwoMoments(ids, xs, cs, p);
    RecoversMeans(ids, xs, cs, p);
    PairMoment(a, b, x, y, p);
    ExtraTerm(w, cs[0], cs[1], m, p);
  }

  lemma RecoversMeans(ids: seq<int>, xs: seq<int>, cs: seq<int>, p: int)
    requires p > 0 && |xs| == |ids| && cs != []
    ensures Recovers(ids, xs, cs, p) <==> Congruent(Weighted(ids, PlacedShares(ids, xs, cs, p), p), cs[0], p)
  {
    hide Congruent, Weighted, PlacedShares;
  }

  lemma TwoMoments(ids: seq<int>, xs: seq<int>, cs: seq<int>, p: int)
    requires p > 0 && |xs| == |ids| && |cs| == 2
    ensures Moments(ids, xs, cs[1..], 1, p) == cs[1] * Moment(ids, ids, xs, 1, p)
  {
    hide Moment;
    assert cs[1..][1..] == [] && cs[1..][0] == cs[1];
  }

  lemma ExtraTerm(w: int, c: int, d: int, m: int, p: int)
    requires IsPrime(p) && Congruent(w, c + d * m, p)
    ensures Congruent(w, c, p) <==> d % p == 0 || Congruent(m, 0, p)
  {
    CongZero(c + d * m, c, p);
    ModUnique(0, 0, 0, p);
    if d % p == 0 {
      ProductWithZero(d, m, p);
    } else {
      ZeroTimes(d, m, p);
    }
  }

  lemma {:induction false} TwoTerms(ids: seq<int>, a: int, b: int, x: int, y: int, p: int)
    requires p > 0
    ensures Moment(ids, [a, b], [x, y], 1, p) == Lambda(ids, a, p) * x + Lambda(ids, b, p) * y
  {
    hide Lambda;
    assert Front([a, b]) == [a] && Front([x, y]) == [x] && Front([a]) == [] && Front([x]) == [];
    assert Moment(ids, [a], [x], 1, p) == Lambda(ids, a, p) * Pow(x, 1);
    assert Pow(x, 1) == x * Pow(x, 0) && Pow(y, 1) == y * Pow(y, 0);
  }

  lemma PairQuotients(a: int, b: int, p: int)
    requires IsPrime(p) && 0 < a < p && 0 < b < p && a != b
    ensures (Lambda([a, b], a, p) * (b - a)) % p == b % p
    ensures (Lambda([a, b], b, p) * (a - b)) % p == a % p
  {
    PairProducts(a, b);
    DifferenceNonZero(b, a, p);
    DifferenceNonZero(a, b, p);
    LambdaQuotient([a, b], a, p);
    LambdaQuotient([a, b], b, p);
  }

  lemma PairProducts(a: int, b: int)
    requires a != b
    ensures Num([a, b], a) == b && Den([a, b], a) == b - a
    ensures Num([a, b], b) == a && Den([a, b], b) == a - b
  {
    forall x
      ensures Num([a, b], x) == NumFactor(x)(a) * NumFactor(x)(b)
      ensures Den([a, b], x) == DenFactor(x)(a) * DenFactor(x)(b)
    {
      PairProduct(NumFactor(x), a, b);
      PairProduct(DenFactor(x), a, b);
    }
  }

  lemma PairProduct(f: int -> int, a: int, b: int)
    ensures Product(Map(f, [a, b])) == f(a) * f(b)
  {
    ProductMapLast(f, [a, b]);
    assert Front([a, b]) == [a] && Front([a]) == [];
    ProductMapLast(f, [a]);
    assert Product(Map(f, [])) == 1;
  }

  lemma PairTerms(l: int, k: int, a: int, b: int, x: int, y: int, p: int)
    requires p > 0 && (l * (b - a)) % p == b % p && (k * (a - b)) % p == a % p
    ensures ((b - a) * (l * x + k * y)) % p == (b * x - a * y) % p
  {
    var d := b - a;
    Cong(l * d, b, x, x, p);
    Cong(k * (a - b), a, y, y, p);
    Cong((l * d) * x, b * x, (k * (a - b)) * y, a * y, p);
    MulAdd(d, l * x, k * y);
    assert d * (l * x) == (l * d) * x;
    assert d * (k * y) == -((k * (a - b)) * y);
  }

  /** A unit times w is zero exactly when w is. */
  lemma ZeroTimes(d: int, w: int, p: int)
    requires IsPrime(p) && d % p != 0
    ensures (d * w) % p == 0 <==> w % p == 0
  {
    if w % p == 0 {
      ProductWithZero(w, d, p);
    } else {
      NonZeroProduct(d, w, p);
    }
  }

  // ---- Proportional ids --------------------------------------------------------------

  /** The polynomial w f(u x). */
  function Scale(cs: seq<int>, u: int, w: int): (r: seq<int>)
    ensures |r| == |cs| && (cs != [] ==> r[0] == cs[0] * w)
  {
    if cs == [] then [] else [cs[0] * w] + Scale(cs[1..], u, w * u)
  }

  lemma {:induction false} EvalScale(cs: seq<int>, u: int, w: int, x: int)
    ensures Eval(Scale(cs, u, w), x) == w * Eval(cs, u * x)
  {
    if cs != [] {
      EvalUnfold(cs, u * x);
      EvalUnfold(Scale(cs, u, w), x);
      EvalScale(cs[1..], u, w * u, x);
      assert Scale(cs, u, w)[1..] == Scale(cs[1..], u, w * u);
      hide Eval, Scale;
      ScaleStep(cs[0], w, u, x, Eval(cs[1..], u * x));
    }
  }

  lemma ScaleStep(c: int, w: int, u: int, x: int, e: int)
    ensures c * w + x * ((w * u) * e) == w * (c + (u * x) * e)
  {
    MulAdd(w, c, (u * x) * e);
    MulAssoc(w, u, e);
    SwapFactors(x, w, u * e);
    MulAssoc(u, x, e);
    SwapFactors(x, u, e);
  }

  /** Ids that are c times their places hold shares of the polynomial scaled by the inverse of c: the same secret. */
  lemma {:induction false} ProportionalShares(cs: seq<int>, c: int, x: int, id: int, p: int)
    requires IsPrime(p) && c % p != 0 && id % p == (c * x) % p
    ensures Eval(Scale(cs, EuclidInverse(c, p), 1), id) % p == Eval(cs, x) % p
  {
    hide *;
    Positive(p);
    var u := EuclidInverse(c, p);
    EvalScale(cs, u, 1, id);
    DivideOut(c, x, id, p);
    EvalCongruent(cs, u * id, x, p);
  }

  lemma DivideOut(c: int, x: int, id: int, p: int)
    requires IsPrime(p) && c % p != 0 && id % p == (c * x) % p
    ensures (EuclidInverse(c, p) * id) % p == x % p
  {
    assert p > 1;
    InverseWorks(c, p);
    hide *;
    var u := EuclidInverse(c, p);
    CongMul(u, id, c * x, p);
    ModUnique(1, 0, 1, p);
    Cong(c * u, 1, x, x, p);
    assert u * (c * x) == (c * u) * x by { SwapFactors(u, c, x); MulAssoc(c, u, x); }
  }
}
