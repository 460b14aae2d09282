/**
 * Shamir secret sharing over the scalar field, as projects/node/src/crypto/shamir.ts does it.
 * The modulus p stands for the Ed25519 group order; random coefficients come in as an argument.
 */
module Shamir {
  import opened Arith
  import opened Seqs
  import opened Bytes
  import opened Fermat
  import opened Interpolation

  datatype Share = Share(id: int, value: int)

  /** Truncating remainder, corrected when negative: the Euclidean remainder. */
  function Mod(a: int, m: int): (r: int)
    requires m > 0
    ensures r == a % m
  {
    var r := TruncRem(a, m);
    assert r == a % m || r == a % m - m by { TruncRemCases(a, m); }
    TruncRemCases(a, m);
    if r >= 0 then r else r + m
  }

  lemma TruncRemCases(a: int, m: int)
    requires m > 0
    ensures -m < TruncRem(a, m) < m
    ensures TruncRem(a, m) == a % m || (TruncRem(a, m) == a % m - m && TruncRem(a, m) < 0)
  {
    if a < 0 {
      var q, r := (-a) / m, (-a) % m;
      assert -a == m * q + r;
      if r == 0 {
        ModUnique(a, -q, 0, m);
      } else {
        assert a == m * (-q - 1) + (m - r);
        ModUnique(a, -q - 1, m - r, m);
      }
    }
  }

  /** Square and multiply. */
  method ModPow(base: int, exp: int, m: int) returns (res: int)
    requires m > 0
    ensures exp <= 0 ==> res == 1
    ensures exp > 0 ==> res == Pow(base, exp) % m
  {
    res := 1;
    var b := Mod(base, m);
    var e := exp;
    ModSelf(base, m);
    if exp > 0 {
      PowCong(b, base, exp, m);
    }
    while e > 0
      invariant exp > 0 ==> e >= 0 && (res * Pow(b, e)) % m == Pow(base, exp) % m
      invariant exp <= 0 ==> e == exp && res == 1
      invariant e == 0 && exp > 0 ==> res == res % m
      decreases e
    {
      PowHalve(b, e, m);
      SquareStep(res, b, e, m);
      if e % 2 == 1 {
        res := Mod(res * b, m);
        ModSelf(res, m);
      }
      b := Mod(b * b, m);
      if e == 1 {
        ModSelf(res * b, m);
      }
      e := e / 2;
    }
  }

  lemma PowHalve(b: int, e: nat, m: int)
    requires m > 0 && e > 0
    ensures Pow(b, e) == (if e % 2 == 1 then b else 1) * Pow(b * b, e / 2)
  {
    PowDouble(b, e / 2);
    if e % 2 == 1 {
      assert e == 2 * (e / 2) + 1;
    } else {
      assert e == 2 * (e / 2);
    }
  }

  /** One turn of the loop keeps res * b^e modulo m. */
  lemma SquareStep(res: int, b: int, e: nat, m: int)
    requires m > 0 && e > 0
    requires Pow(b, e) == (if e % 2 == 1 then b else 1) * Pow(b * b, e / 2)
    ensures var res' := if e % 2 == 1 then (res * b) % m else res;
            (res' * Pow((b * b) % m, e / 2)) % m == (res * Pow(b, e)) % m
  {
    var res' := if e % 2 == 1 then (res * b) % m else res;
    var h := Pow(b * b, e / 2);
    ModSelf(b * b, m);
    ModSelf(res * b, m);
    PowCong((b * b) % m, b * b, e / 2, m);
    var unreduced := if e % 2 == 1 then res * b else res;
    Cong(res', unreduced, Pow((b * b) % m, e / 2), h, m);
    assert unreduced * h == res * Pow(b, e) by {
      if e % 2 == 1 {
        MulAssoc(res, b, h);
      }
    }
  }

  /** Fermat inverse: refuses zero, and inverts everything else modulo a prime. */
  method Invert(a: int, m: int) returns (r: Result<int>)
    requires m > 0
    ensures r.Err? <==> a % m == 0
    ensures r.Err? ==> r == Err(ZeroHasNoInverse)
    ensures IsPrime(m) && r.Ok? ==> (a * r.value) % m == 1 && r.value == EuclidInverse(a, m)
  {
    var norm := Mod(a, m);
    if norm == 0 {
      return Err(ZeroHasNoInverse);
    }
    var x := ModPow(norm, m - 2, m);
    if m == 2 {
      ModUnique(1, 0, 1, m);
      assert Pow(norm, 0) == 1;
    }
    ghost var prime := IsPrime(m);
    if prime {
      FermatInverseIsEuclid(a, m);
    }
    return Ok(x);
  }

  // ---- Little-endian codecs ----------------------------------------------------------

  method BytesToBigIntLE(bytes: Bytes) returns (acc: int)
    ensures acc == LeValue(bytes)
  {
    hide LeValue;
    acc := 0;
    var i := |bytes| - 1;
    LeNothing(bytes[i + 1..]);
    while i >= 0
      invariant -1 <= i < |bytes|
      invariant acc == LeValue(bytes[i + 1..])
    {
      LeStep(bytes, i);
      acc := acc * 256 + bytes[i];
      i := i - 1;
    }
    assert bytes[0..] == bytes;
  }

  method BigIntToBytesLE(value: int, length: nat, p: int) returns (out: Bytes)
    requires p > 0
    ensures out == LeBytes(value % p, length)
  {
    var norm := Mod(value, p);
    out := [];
    var cur := norm;
    for i := 0 to length
      invariant |out| == i && cur >= 0
      invariant out + LeBytes(cur, length - i) == LeBytes(norm, length)
    {
      out := out + [cur % 256];
      cur := cur / 256;
    }
    assert out + [] == out;
  }

  method BytesToScalar(bytes: Bytes, p: int) returns (s: int)
    requires p > 0
    ensures s == LeValue(bytes) % p
  {
    var v := BytesToBigIntLE(bytes);
    s := Mod(v, p);
  }

  /** A scalar survives its 32 byte encoding up to reduction, and a canonical one exactly. */
  lemma ScalarRoundTrip(s: int, p: int)
    requires 0 < p <= Pow(256, 32)
    ensures LeValue(LeBytes(s % p, 32)) == s % p < p
    ensures LeValue(LeBytes(s % p, 32)) % p == s % p
    ensures 0 <= s < p ==> LeValue(LeBytes(s % p, 32)) == s
  {
    LeValueOfBytes(s % p, 32);
    ModSelf(s, p);
    if 0 <= s < p {
      ModUnique(s, 0, s, p);
    }
  }

  // ---- Sharing -----------------------------------------------------------------------

  /** The shares of the polynomial with the given coefficients, for ids 1..total. */
  function SharesOf(cs: seq<int>, total: nat, p: int): (s: seq<Share>)
    requires p > 0
    ensures |s| == total
    ensures forall i :: 0 <= i < total ==> s[i] == Share(i + 1, Eval(cs, i + 1) % p)
  {
    seq(total, i => Share(i + 1, Eval(cs, i + 1) % p))
  }

  /** The first n random draws. */
  function Draws(random: nat -> int, n: nat): (s: seq<int>)
    ensures |s| == n && forall i :: 0 <= i < n ==> s[i] == random(i)
  {
    seq(n, i requires i >= 0 => random(i))
  }

  /** random(0) x + random(1) x^2 + ... + random(n - 1) x^n: what the draws add to the secret at x. */
  function DrawSum(random: nat -> int, n: nat, x: int): int
  {
    if n == 0 then 0 else DrawSum(random, n - 1, x) + random(n - 1) * Pow(x, n)
  }

  /** The polynomial of a secret and its draws, as a sum of powers. */
  lemma {:induction false} EvalOfDraws(secret: int, random: nat -> int, n: nat, x: int)
    ensures Eval([secret] + Draws(random, n), x) == secret + DrawSum(random, n, x)
  {
    if n == 0 {
      assert [secret] + Draws(random, n) == [secret] && [secret][1..] == [];
      EvalUnfold([secret], x);
      assert x * 0 == 0;
    } else {
      var cs := [secret] + Draws(random, n - 1);
      EvalOfDraws(secret, random, n - 1, x);
      assert [secret] + Draws(random, n) == cs + [random(n - 1)];
      EvalSnoc(cs, random(n - 1), x);
    }
  }

  method SplitSecret(secret: int, threshold: int, total: int, random: nat -> int, p: int)
    returns (r: Result<seq<Share>>)
    requires p > 0
    ensures r.Ok? <==> 1 <= threshold <= total
    ensures r.Ok? ==> r.value == SharesOf([secret] + Draws(random, threshold - 1), total, p)
    ensures r.Ok? ==> |r.value| == total && forall i :: 0 <= i < total ==>
              r.value[i] == Share(i + 1, (secret + DrawSum(random, threshold - 1, i + 1)) % p)
  {
    if threshold < 1 || threshold > total {
      return Err(BadThreshold);
    }
    var coeffs: seq<int> := [];
    for i := 1 to threshold
      invariant coeffs == Draws(random, i - 1)
    {
      coeffs := coeffs + [random(i - 1)];
    }
    hide Eval, SharesOf;
    NothingShared([secret] + coeffs, p);
    var shares: seq<Share> := [];
    for id := 1 to total + 1
      invariant shares == SharesOf([secret] + coeffs, id - 1, p)
    {
      var val := Horner(secret, coeffs, id, p);
      SharesSnoc([secret] + coeffs, id, p);
      shares := shares + [Share(id, val)];
    }
    SharesBySum(secret, random, threshold - 1, total, p);
    return Ok(shares);
  }

  lemma SharesBySum(secret: int, random: nat -> int, n: nat, total: nat, p: int)
    requires p > 0
    ensures var shares := SharesOf([secret] + Draws(random, n), total, p);
            |shares| == total
            && forall i :: 0 <= i < total ==> shares[i] == Share(i + 1, (secret + DrawSum(random, n, i + 1)) % p)
  {
    hide Eval, Draws, DrawSum;
    var shares := SharesOf([secret] + Draws(random, n), total, p);
    forall i | 0 <= i < total
      ensures shares[i] == Share(i + 1, (secret + DrawSum(random, n, i + 1)) % p)
    {
      EvalOfDraws(secret, random, n, i + 1);
    }
  }

  lemma NothingShared(cs: seq<int>, p: int)
    requires p > 0
    ensures SharesOf(cs, 0, p) == []
  {
  }

  /** Evaluates f(x) by Horner's method, highest coefficient first. */
  method Horner(secret: int, coeffs: seq<int>, x: int, p: int) returns (val: int)
    requires p > 0
    ensures val == Eval([secret] + coeffs, x) % p
  {
    hide Eval;
    var acc := 0;
    var j := |coeffs| - 1;
    EvalEmpty(coeffs[j + 1..], x);
    while j >= 0
      invariant -1 <= j < |coeffs|
      invariant acc % p == Eval(coeffs[j + 1..], x) % p
    {
      HornerStep(acc, coeffs[j], coeffs[j + 1..], x, p);
      assert [coeffs[j]] + coeffs[j + 1..] == coeffs[j..];
      acc := Mod(Mod(acc * x, p) + coeffs[j], p);
      j := j - 1;
    }
    assert coeffs[0..] == coeffs;
    HornerStep(acc, secret, coeffs, x, p);
    val := Mod(Mod(acc * x, p) + secret, p);
  }

  lemma EvalEmpty(cs: seq<int>, x: int)
    requires cs == []
    ensures Eval(cs, x) == 0
  {
  }

  lemma SharesSnoc(cs: seq<int>, id: nat, p: int)
    requires p > 0 && id > 0
    ensures SharesOf(cs, id, p) == SharesOf(cs, id - 1, p) + [Share(id, Eval(cs, id) % p)]
  {
    hide Eval;
  }

  lemma HornerStep(acc: int, c: int, cs: seq<int>, x: int, p: int)
    requires p > 0 && acc % p == Eval(cs, x) % p
    ensures ((acc * x) % p + c) % p == Eval([c] + cs, x) % p
    ensures (((acc * x) % p + c) % p) % p == Eval([c] + cs, x) % p
  {
    CongMul(x, acc, Eval(cs, x), p);
    assert acc * x == x * acc;
    ModSelf(acc * x, p);
    Cong((acc * x) % p, x * Eval(cs, x), c, c, p);
    assert ([c] + cs)[1..] == cs;
    ModSelf((acc * x) % p + c, p);
  }

  // ---- Combining ---------------------------------------------------------------------

  /** Another id of the quorum equals x modulo p, so the basis value of x does not exist. */
  ghost predicate Singular(ids: seq<int>, x: int, p: int)
    requires p > 0
  {
    Den(ids, x) % p == 0
  }

  method LagrangeCoeff(ids: seq<int>, targetId: int, p: int) returns (r: Result<int>)
    requires IsPrime(p)
    ensures r.Err? <==> Singular(ids, targetId, p)
    ensures r.Err? ==> r == Err(ZeroHasNoInverse)
    ensures r.Ok? ==> r.value == Lambda(ids, targetId, p)
  {
    var num, den := 1, 1;
    hide Num, Den, Lambda;
    EmptyQuotient(ids[..0], targetId);
    for i := 0 to |ids|
      invariant num % p == Num(ids[..i], targetId) % p
      invariant den % p == Den(ids[..i], targetId) % p
    {
      var j := ids[i];
      LagrangeStep(ids, i, targetId, num, den, p);
      if j == targetId { continue; }
      num := Mod(num * j, p);
      den := Mod(den * (j - targetId), p);
    }
    assert ids[..|ids|] == ids;
    var inv := Invert(den, p);
    if inv.Err? {
      return inv;
    }
    LagrangeEnd(ids, targetId, num, den, p);
    return Ok(Mod(num * inv.value, p));
  }

  lemma EmptyQuotient(ids: seq<int>, x: int)
    requires ids == []
    ensures Num(ids, x) == 1 && Den(ids, x) == 1
  {
  }

  lemma LagrangeStep(ids: seq<int>, i: nat, x: int, num: int, den: int, p: int)
    requires p > 0 && i < |ids|
    requires num % p == Num(ids[..i], x) % p && den % p == Den(ids[..i], x) % p
    ensures ids[i] == x ==> Num(ids[..i + 1], x) == Num(ids[..i], x) && Den(ids[..i + 1], x) == Den(ids[..i], x)
    ensures ids[i] != x ==> ((num * ids[i]) % p) % p == Num(ids[..i + 1], x) % p
    ensures ids[i] != x ==> ((den * (ids[i] - x)) % p) % p == Den(ids[..i + 1], x) % p
  {
    hide Product;
    var j := ids[i];
    PrefixStep(ids, i);
    ProductMapLast(NumFactor(x), ids[..i + 1]);
    ProductMapLast(DenFactor(x), ids[..i + 1]);
    Cong(num, Num(ids[..i], x), j, j, p);
    Cong(den, Den(ids[..i], x), j - x, j - x, p);
    ModSelf(num * j, p);
    ModSelf(den * (j - x), p);
  }

  lemma LagrangeEnd(ids: seq<int>, x: int, num: int, den: int, p: int)
    requires p > 0 && num % p == Num(ids, x) % p && den % p == Den(ids, x) % p
    ensures (num * EuclidInverse(den, p)) % p == Lambda(ids, x, p)
  {
    InverseOfReduced(den, Den(ids, x), p);
    Cong(num, Num(ids, x), EuclidInverse(den, p), EuclidInverse(den, p), p);
  }

  lemma InverseOfReduced(a: int, b: int, p: int)
    requires p > 0 && a % p == b % p
    ensures EuclidInverse(a, p) == EuclidInverse(b, p)
  {
  }

  function Ids(shares: seq<Share>): (ids: seq<int>)
    ensures |ids| == |shares| && forall i :: 0 <= i < |ids| ==> ids[i] == shares[i].id
  {
    seq(|shares|, i requires 0 <= i < |shares| => shares[i].id)
  }

  /** The sum of Lambda * value over the shares of a quorum with the given ids. */
  function Weighted(ids: seq<int>, shares: seq<Share>, p: int): int
    requires p > 0
  {
    if shares == [] then 0
    else Weighted(ids, Front(shares), p) + Lambda(ids, Last(shares).id, p) * Last(shares).value
  }

  /** The first n participants all have an invertible denominator. */
  ghost predicate Invertible(ids: seq<int>, n: nat, p: int)
    requires p > 0 && n <= |ids|
  {
    forall i :: 0 <= i < n ==> !Singular(ids, ids[i], p)
  }

  lemma InvertibleStep(ids: seq<int>, n: nat, p: int)
    requires p > 0 && n < |ids| && Invertible(ids, n, p)
    ensures Singular(ids, ids[n], p) ==> !Invertible(ids, |ids|, p)
    ensures !Singular(ids, ids[n], p) ==> Invertible(ids, n + 1, p)
  {
  }

  /** What combining a list of shares gives: the three refusals, or the weighted sum. */
  ghost function Combined(shares: seq<Share>, p: int): Result<int>
    requires p > 0
  {
    if shares == [] then Err(NoShares)
    else if !Distinct(Ids(shares)) then Err(DuplicateIds)
    else if !Invertible(Ids(shares), |shares|, p) then Err(ZeroHasNoInverse)
    else Ok(Weighted(Ids(shares), shares, p) % p)
  }

  method CombineShares(shares: seq<Share>, p: int) returns (r: Result<int>)
    requires IsPrime(p)
    ensures r == Combined(shares, p)
  {
    if |shares| == 0 {
      return Err(NoShares);
    }
    var ids := Ids(shares);
    var uniqueIds := set i | i in ids;
    SetSize(ids);
    if |uniqueIds| != |ids| {
      return Err(DuplicateIds);
    }
    assert p > 0;
    var secret := 0;
    ModUnique(0, 0, 0, p);
    assert Invertible(ids, 0, p);
    hide Lambda, Singular, IsPrime, Distinct, Invertible, AddTerm;
    for i := 0 to |shares|
      invariant secret == Weighted(ids, shares[..i], p) % p
      invariant Invertible(ids, i, p)
    {
      var s := shares[i];
      var lambda := LagrangeCoeff(ids, s.id, p);
      InvertibleStep(ids, i, p);
      if lambda.Err? {
        return lambda;
      }
      WeightedStep(ids, shares, i, lambda.value, s.value, secret, p);
      secret := AddTerm(secret, lambda.value, s.value, p);
    }
    assert shares[..|shares|] == shares;
    return Ok(secret);
  }

  /** One term of the accumulation, reduced as it goes. */
  function AddTerm(acc: int, lambda: int, value: int, p: int): int
    requires p > 0
  {
    Mod(acc + Mod(lambda * value, p), p)
  }

  lemma WeightedStep(ids: seq<int>, shares: seq<Share>, i: nat, l: int, v: int, acc: int, p: int)
    requires p > 0 && i < |shares|
    requires l == Lambda(ids, shares[i].id, p) && v == shares[i].value
    requires acc == Weighted(ids, shares[..i], p) % p
    ensures AddTerm(acc, l, v, p) == Weighted(ids, shares[..i + 1], p) % p
  {
    hide Lambda;
    PrefixStep(shares, i);
    ModSelf(Weighted(ids, shares[..i], p), p);
    ModSelf(l * v, p);
    Cong(acc, Weighted(ids, shares[..i], p), (l * v) % p, l * v, p);
  }

  lemma {:induction false} SetSize<T>(s: seq<T>)
    ensures |set x | x in s| <= |s|
    ensures |set x | x in s| == |s| <==> Distinct(s)
  {
    if s != [] {
      SetSize(Front(s));
      var f, l := Front(s), Last(s);
      assert s == f + [l];
      var fs := set x | x in f;
      assert (set x | x in s) == fs + {l};
      if l in f {
        var i :| 0 <= i < |f| && f[i] == l;
        assert s[i] == s[|s| - 1];
        assert fs + {l} == fs;
      } else {
        assert Distinct(f) ==> Distinct(s);
      }
    }
  }

  // ---- What sharing promises ---------------------------------------------------------

  /** Every share of the quorum is the value of the polynomial at its id. */
  ghost predicate OnPolynomial(shares: seq<Share>, cs: seq<int>, p: int)
    requires p > 0
  {
    forall i :: 0 <= i < |shares| ==> shares[i].value % p == Eval(cs, shares[i].id) % p
  }

  lemma {:induction false} WeightedIsPolySum(ids: seq<int>, shares: seq<Share>, cs: seq<int>, p: int)
    requires p > 0 && OnPolynomial(shares, cs, p)
    ensures Weighted(ids, shares, p) % p == PolySum(ids, Ids(shares), cs, p) % p
  {
    hide Lambda;
    if shares != [] {
      var s, f := Last(shares), Front(shares);
      WeightedIsPolySum(ids, f, cs, p);
      assert Front(Ids(shares)) == Ids(f);
      var l := Lambda(ids, s.id, p);
      CongMul(l, s.value, Eval(cs, s.id), p);
      Cong(Weighted(ids, f, p), PolySum(ids, Ids(f), cs, p), l * s.value, l * Eval(cs, s.id), p);
    }
  }

  /** Any quorum at least as large as the polynomial has coefficients reconstructs the secret. */
  lemma AnyQuorumReconstructs(shares: seq<Share>, cs: seq<int>, p: int)
    requires IsPrime(p) && ValidIds(Ids(shares), p)
    requires 0 < |cs| <= |shares| && OnPolynomial(shares, cs, p)
    ensures Weighted(Ids(shares), shares, p) % p == cs[0] % p
    ensures Invertible(Ids(shares), |shares|, p)
  {
    var ids := Ids(shares);
    WeightedIsPolySum(ids, shares, cs, p);
    InterpolatesAtZero(ids, cs, p);
    EvalAtZero(cs);
    QuorumInvertible(ids, p);
  }

  /** All denominators are invertible exactly when no two different ids agree modulo the prime. */
  lemma InvertibleExactly(ids: seq<int>, p: int)
    requires IsPrime(p)
    ensures Invertible(ids, |ids|, p)
            <==> forall i, j :: 0 <= i < |ids| && 0 <= j < |ids| && Congruent(ids[i], ids[j], p) ==> ids[i] == ids[j]
  {
    assert p > 0;
    hide Den, IsPrime, Congruent;
    forall i | 0 <= i < |ids|
      ensures Singular(ids, ids[i], p)
              <==> exists j :: 0 <= j < |ids| && Congruent(ids[i], ids[j], p) && ids[i] != ids[j]
    {
      SingularExactly(ids, ids[i], p);
    }
  }

  lemma {:induction false} SingularExactly(ids: seq<int>, x: int, p: int)
    requires IsPrime(p)
    ensures Singular(ids, x, p) <==> exists j :: 0 <= j < |ids| && Congruent(x, ids[j], p) && x != ids[j]
  {
    if ids == [] {
      ModUnique(1, 0, 1, p);
    } else {
      var f, a := Front(ids), Last(ids);
      SingularExactly(f, x, p);
      ProductMapLast(DenFactor(x), ids);
      CongZero(a, x, p);
      ModUnique(1, 0, 1, p);
      hide IsPrime;
      ZeroProduct(Den(f, x), if a == x then 1 else a - x, p);
      OneMore(ids, x, p);
    }
  }

  lemma OneMore(ids: seq<int>, x: int, p: int)
    requires ids != [] && p > 0
    ensures (exists j :: 0 <= j < |ids| && Congruent(x, ids[j], p) && x != ids[j])
            <==> (exists j :: 0 <= j < |Front(ids)| && Congruent(x, Front(ids)[j], p) && x != Front(ids)[j])
                 || (Congruent(x, Last(ids), p) && x != Last(ids))
  {
    hide Congruent;
    var f := Front(ids);
    forall j | 0 <= j < |f| && Congruent(x, f[j], p) && x != f[j]
      ensures Congruent(x, ids[j], p) && x != ids[j]
    {
    }
  }

  lemma ZeroProduct(a: int, b: int, p: int)
    requires IsPrime(p)
    ensures (a * b) % p == 0 <==> a % p == 0 || b % p == 0
  {
    if a % p == 0 {
      ProductWithZero(a, b, p);
    } else if b % p == 0 {
      ProductWithZero(b, a, p);
    } else {
      NonZeroProduct(a, b, p);
    }
  }

  /** Shares combine exactly when there are some and no two have one id modulo the prime. */
  lemma CombinesExactly(shares: seq<Share>, p: int)
    requires IsPrime(p)
    ensures Combined(shares, p).Ok?
            <==> shares != [] && forall i, j :: 0 <= i < j < |shares| ==> !Congruent(shares[i].id, shares[j].id, p)
  {
    hide Invertible, IsPrime, Weighted, Congruent, Lambda;
    Positive(p);
    InvertibleExactly(Ids(shares), p);
    ApartExactly(Ids(shares), p);
  }

  lemma Positive(p: int)
    requires IsPrime(p)
    ensures p > 1
  {
  }

  lemma ApartExactly(ids: seq<int>, p: int)
    requires p > 0
    ensures Distinct(ids)
            && (forall i, j :: 0 <= i < |ids| && 0 <= j < |ids| && Congruent(ids[i], ids[j], p) ==> ids[i] == ids[j])
            <==> forall i, j :: 0 <= i < j < |ids| ==> !Congruent(ids[i], ids[j], p)
  {
    forall i, j | 0 <= i < |ids| && 0 <= j < |ids|
      ensures Congruent(ids[i], ids[i], p) && (Congruent(ids[i], ids[j], p) <==> Congruent(ids[j], ids[i], p))
    {
    }
    hide Congruent;
    if forall i, j :: 0 <= i < j < |ids| ==> !Congruent(ids[i], ids[j], p) {
      forall i, j | 0 <= i < |ids| && 0 <= j < |ids| && Congruent(ids[i], ids[j], p)
        ensures ids[i] == ids[j]
      {
        assert i < j || j < i || i == j;
      }
      assert forall i, j :: 0 <= i < j < |ids| ==> Congruent(ids[j], ids[j], p) && ids[i] != ids[j];
    }
  }

  lemma QuorumInvertible(ids: seq<int>, p: int)
    requires IsPrime(p) && ValidIds(ids, p)
    ensures Invertible(ids, |ids|, p)
  {
    hide IsPrime;
    forall i | 0 <= i < |ids|
      ensures !Singular(ids, ids[i], p)
    {
      DenNonZero(ids, ids[i], p);
    }
  }

  lemma EvalAtZero(cs: seq<int>)
    requires cs != []
    ensures Eval(cs, 0) == cs[0]
  {
    assert Eval(cs, 0) == cs[0] + 0 * Eval(cs[1..], 0);
  }

  /** A choice of distinct shares out of a full split. */
  ghost predicate QuorumOf(quorum: seq<Share>, all: seq<Share>)
  {
    Distinct(Ids(quorum)) && forall i :: 0 <= i < |quorum| ==> quorum[i] in all
  }

  lemma QuorumIsValid(quorum: seq<Share>, cs: seq<int>, total: nat, p: int)
    requires p > total && QuorumOf(quorum, SharesOf(cs, total, p))
    ensures ValidIds(Ids(quorum), p) && OnPolynomial(quorum, cs, p)
  {
    forall i | 0 <= i < |quorum|
      ensures 0 < quorum[i].id < p && quorum[i].value % p == Eval(cs, quorum[i].id) % p
    {
      var k :| 0 <= k < total && SharesOf(cs, total, p)[k] == quorum[i];
      ModSelf(Eval(cs, k + 1), p);
    }
  }

  /** The round trip: combining any t or more shares of a split gives the secret back. */
  method SplitThenCombine(secret: int, threshold: int, total: int, random: nat -> int, p: int,
                          choose: seq<nat>) returns (r: Result<int>)
    requires IsPrime(p) && 1 <= threshold <= total < p
    requires Distinct(choose) && |choose| >= threshold && forall i :: 0 <= i < |choose| ==> choose[i] < total
    ensures r == Ok(secret % p)
  {
    var split := SplitSecret(secret, threshold, total, random, p);
    var all := split.value;
    var quorum := seq(|choose|, i requires 0 <= i < |choose| => all[choose[i]]);
    ghost var cs := [secret] + Draws(random, threshold - 1);
    QuorumIsValid(quorum, cs, total, p);
    AnyQuorumReconstructs(quorum, cs, p);
    r := CombineShares(quorum, p);
  }
}
