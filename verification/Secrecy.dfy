/**
 * What fewer than t shares tell: nothing. For any t - 1 participants and any candidate secret there
 * is exactly one choice of random coefficients that deals them the shares they hold.
 */
module Secrecy {
  import opened Arith
  import opened Seqs
  import opened Interpolation
  import opened Shamir

  /** a + k b, coefficient by coefficient, reduced */
  function Combine(a: seq<int>, k: int, b: seq<int>, p: int): (r: seq<int>)
    requires p > 0 && |a| == |b|
    ensures |r| == |a| && Residues(r, p)
    ensures forall i :: 0 <= i < |a| ==> r[i] == (a[i] + k * b[i]) % p
  {
    seq(|a|, i requires 0 <= i < |a| => (a[i] + k * b[i]) % p)
  }

  ghost predicate Residues(cs: seq<int>, p: int)
  {
    forall i :: 0 <= i < |cs| ==> 0 <= cs[i] < p
  }

  lemma {:induction false} EvalCombine(a: seq<int>, k: int, b: seq<int>, x: int, p: int)
    requires p > 0 && |a| == |b|
    ensures Eval(Combine(a, k, b, p), x) % p == (Eval(a, x) + k * Eval(b, x)) % p
  {
    if a != [] {
      var r := Combine(a, k, b, p);
      EvalCombine(a[1..], k, b[1..], x, p);
      assert r[1..] == Combine(a[1..], k, b[1..], p);
      CombineStep(a[0], k, b[0], x, Eval(a[1..], x), Eval(b[1..], x), Eval(r[1..], x), p);
    }
  }

  lemma CombineStep(a: int, k: int, b: int, x: int, ea: int, eb: int, er: int, p: int)
    requires p > 0 && er % p == (ea + k * eb) % p
    ensures ((a + k * b) % p + x * er) % p == ((a + x * ea) + k * (b + x * eb)) % p
  {
    ModSelf(a + k * b, p);
    CongMul(x, er, ea + k * eb, p);
    Cong((a + k * b) % p, a + k * b, x * er, x * (ea + k * eb), p);
    MulAdd(x, ea, k * eb);
    MulAdd(k, b, x * eb);
    SwapFactors(k, x, eb);
  }

  /** carry + cs * (1 - u x) */
  function TimesLinear(cs: seq<int>, u: int, carry: int): (r: seq<int>)
    ensures |r| == |cs| + 1
  {
    if cs == [] then [carry] else [carry + cs[0]] + TimesLinear(cs[1..], u, -u * cs[0])
  }

  lemma {:induction false} EvalTimesLinear(cs: seq<int>, u: int, carry: int, x: int)
    ensures Eval(TimesLinear(cs, u, carry), x) == carry + Eval(cs, x) * (1 - u * x)
  {
    var r := TimesLinear(cs, u, carry);
    if cs == [] {
      assert r[1..] == [];
    } else {
      EvalTimesLinear(cs[1..], u, -u * cs[0], x);
      assert r[1..] == TimesLinear(cs[1..], u, -u * cs[0]);
      var c, e := cs[0], Eval(cs[1..], x);
      LinearStep(c, e, u, x);
    }
  }

  lemma LinearStep(c: int, e: int, u: int, x: int)
    ensures c + x * (-u * c + e * (1 - u * x)) == (c + x * e) * (1 - u * x)
  {
    var w := 1 - u * x;
    MulAdd(x, -u * c, e * w);
    MulAdd(w, c, x * e);
    MulAdd(c, 1, u * x);
    MulAssoc(x, e, w);
    assert x * (-u * c) == -(c * (u * x)) by {
      SwapFactors(x, -u, c);
      SwapFactors(c, u, x);
      assert x * c == c * x;
      assert -u * (x * c) == -(u * (c * x));
    }
  }

  /** The polynomial that is one at zero and zero at every id: the product of 1 - x / id. */
  function Vanishing(ids: seq<int>, p: int): (r: seq<int>)
    requires p > 0
    ensures |r| == |ids| + 1
  {
    if ids == [] then [1] else TimesLinear(Vanishing(Front(ids), p), EuclidInverse(Last(ids), p), 0)
  }

  lemma {:induction false} VanishingValues(ids: seq<int>, x: int, p: int)
    requires IsPrime(p) && ValidIds(ids, p)
    ensures x == 0 ==> Eval(Vanishing(ids, p), x) == 1
    ensures x in ids ==> Eval(Vanishing(ids, p), x) % p == 0
  {
    hide EuclidInverse, Eval, TimesLinear;
    if ids == [] {
      EvalOne(x);
    } else {
      var f, a := Front(ids), Last(ids);
      var u := EuclidInverse(a, p);
      VanishingValues(f, x, p);
      EvalTimesLinear(Vanishing(f, p), u, 0, x);
      var e := Eval(Vanishing(f, p), x);
      if x == 0 {
        assert u * x == 0;
      } else if x == a {
        LinearRoot(a, p);
        ProductWithZero(1 - u * x, e, p);
      } else if x in ids {
        assert x in f;
        ProductWithZero(e, 1 - u * x, p);
      }
    }
  }

  lemma EvalOne(x: int)
    ensures Eval([1], x) == 1
  {
  }

  lemma LinearRoot(a: int, p: int)
    requires IsPrime(p) && 0 < a < p
    ensures (1 - EuclidInverse(a, p) * a) % p == 0
  {
    hide EuclidInverse;
    ModUnique(a, 0, a, p);
    InverseWorks(a, p);
    ModUnique(1, 0, 1, p);
    var u := EuclidInverse(a, p);
    assert u * a == a * u;
    CongZero(1, u * a, p);
  }

  /** A polynomial with as many roots as coefficients is zero. */
  lemma {:induction false} RootsBound(cs: seq<int>, ids: seq<int>, p: int)
    requires IsPrime(p) && ValidIds(ids, p) && |cs| <= |ids|
    requires forall i :: 0 <= i < |ids| ==> Eval(cs, ids[i]) % p == 0
    ensures forall i :: 0 <= i < |cs| ==> cs[i] % p == 0
    decreases |ids|
  {
    if cs != [] {
      var f, a := Front(ids), Last(ids);
      var g := Quotient(cs, a);
      forall i | 0 <= i < |f|
        ensures Eval(g, f[i]) % p == 0
      {
        var x := ids[i];
        QuotientDivides(cs, a, x);
        ModUnique(0, 0, 0, p);
        Cong(Eval(cs, x), 0, Eval(cs, a), 0, p);
        DifferenceNonZero(x, a, p);
        assert (x - a) * 0 == 0;
        Cancel(x - a, Eval(g, x), 0, p);
      }
      RootsBound(g, f, p);
      QuotientZero(cs, a, p);
    }
  }

  /** If the quotient and the remainder of a division are zero, so is the dividend. */
  lemma {:induction false} QuotientZero(cs: seq<int>, a: int, p: int)
    requires p > 0 && Eval(cs, a) % p == 0
    requires forall i :: 0 <= i < |Quotient(cs, a)| ==> Quotient(cs, a)[i] % p == 0
    ensures forall i :: 0 <= i < |cs| ==> cs[i] % p == 0
  {
    if |cs| > 1 {
      var q := Quotient(cs, a);
      assert q[1..] == Quotient(cs[1..], a);
      forall i | 0 <= i < |q[1..]|
        ensures Quotient(cs[1..], a)[i] % p == 0
      {
        assert q[1..][i] == q[i + 1];
      }
      assert q[0] == Eval(cs[1..], a);
      QuotientZero(cs[1..], a, p);
    }
    if cs != [] {
      var t := Eval(cs[1..], a);
      if |cs| == 1 {
        assert t == 0;
      }
      ModUnique(0, 0, 0, p);
      ProductWithZero(t, a, p);
      Cong(Eval(cs, a), 0, a * t, 0, p);
    }
  }

  /** The coefficient list deals the given participants the same shares that cs deals them. */
  ghost predicate SameShares(cs: seq<int>, cs': seq<int>, ids: seq<int>, p: int)
    requires p > 0
  {
    forall i :: 0 <= i < |ids| ==> Eval(cs', ids[i]) % p == Eval(cs, ids[i]) % p
  }

  /** Some coefficients explain the shares of the t - 1 participants with any other secret. */
  lemma AnySecretIsPossible(cs: seq<int>, ids: seq<int>, other: int, p: int) returns (cs': seq<int>)
    requires IsPrime(p) && ValidIds(ids, p) && |cs| == |ids| + 1 && 0 <= other < p
    ensures |cs'| == |cs| && Residues(cs', p) && cs'[0] == other && SameShares(cs, cs', ids, p)
  {
    var v := Vanishing(ids, p);
    var k := other - cs[0];
    cs' := Combine(cs, k, v, p);
    VanishingValues(ids, 0, p);
    assert v[0] == 1 by {
      assert Eval(v, 0) == v[0] + 0 * Eval(v[1..], 0);
    }
    assert cs[0] + k * v[0] == other;
    ModUnique(other, 0, other, p);
    forall i | 0 <= i < |ids|
      ensures Eval(cs', ids[i]) % p == Eval(cs, ids[i]) % p
    {
      var x := ids[i];
      VanishingValues(ids, x, p);
      EvalCombine(cs, k, v, x, p);
      ProductWithZero(Eval(v, x), k, p);
      ModUnique(0, 0, 0, p);
      Cong(Eval(cs, x), Eval(cs, x), k * Eval(v, x), 0, p);
    }
  }

  /** And no two different choices of coefficients do: the remaining freedom is exactly the secret. */
  lemma OnlyOneExplanation(a: seq<int>, b: seq<int>, ids: seq<int>, p: int)
    requires IsPrime(p) && ValidIds(ids, p) && |a| == |b| == |ids| + 1
    requires Residues(a, p) && Residues(b, p) && a[0] == b[0] && SameShares(a, b, ids, p)
    ensures a == b
  {
    var d := Combine(a, -1, b, p);
    assert d[0] == 0 by {
      assert a[0] + -1 * b[0] == 0;
      ModUnique(0, 0, 0, p);
    }
    forall i | 0 <= i < |ids|
      ensures Eval(d[1..], ids[i]) % p == 0
    {
      var x := ids[i];
      EvalCombine(a, -1, b, x, p);
      assert Eval(a, x) + -1 * Eval(b, x) == Eval(a, x) - Eval(b, x);
      CongZero(Eval(a, x), Eval(b, x), p);
      assert Eval(d, x) == x * Eval(d[1..], x);
      ModUnique(x, 0, x, p);
      ModUnique(0, 0, 0, p);
      assert x * 0 == 0;
      Cancel(x, Eval(d[1..], x), 0, p);
    }
    RootsBound(d[1..], ids, p);
    forall i | 0 <= i < |a|
      ensures a[i] == b[i]
    {
      if i > 0 {
        assert d[1..][i - 1] == d[i];
        assert a[i] + -1 * b[i] == a[i] - b[i];
        ModSelf(a[i] - b[i], p);
        CongZero(a[i], b[i], p);
        ModUnique(a[i], 0, a[i], p);
        ModUnique(b[i], 0, b[i], p);
      }
    }
  }
}
