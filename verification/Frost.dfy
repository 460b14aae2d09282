/**
 * FROST threshold signing over Ed25519, as projects/node/src/crypto/frost.ts does it: dealing,
 * Lagrange coefficients, binding factors, signature shares and their aggregation.
 */
module Frost {
  import opened Arith
  import opened Seqs
  import opened Bytes
  import opened Interpolation
  import opened Suites
  import Shamir

  datatype Commitment = Commitment(nodeId: int, D: Bytes, E: Bytes)

  datatype Nonces = Nonces(d: int, e: int)

  /** Adding the modulus and reducing again makes the truncating remainder Euclidean. */
  function Mod(n: int, m: int): (r: int)
    requires m > 0
    ensures r == n % m
  {
    Shamir.TruncRemCases(n, m);
    var r := TruncRem(n, m);
    assert TruncRem(r + m, m) == n % m by { SecondReduction(n, r, m); }
    TruncRem(r + m, m)
  }

  lemma SecondReduction(n: int, r: int, m: int)
    requires m > 0 && r == TruncRem(n, m)
    ensures TruncRem(r + m, m) == n % m
  {
    Shamir.TruncRemCases(n, m);
    if r == n % m {
      ModUnique(r + m, 1, n % m, m);
    } else {
      ModUnique(r + m, 0, n % m, m);
    }
  }

  /** The extended Euclidean loop. Multiplied by a it gives the greatest common divisor. */
  method ModInverse(a: int, m: int) returns (x: int)
    requires m > 0
    ensures x == EuclidInverse(a, m)
    ensures 0 <= x < m && (a * x) % m == Gcd(a % m, m) % m
  {
    var r0 := Mod(a, m);
    var old_r, r := r0, m;
    var old_s, s := 1, 0;
    while r != 0
      invariant old_r >= 0 && r >= 0
      invariant Egcd(old_r, r, old_s, s) == Egcd(r0, m, 1, 0)
      decreases r
    {
      var q := TruncDiv(old_r, r);
      EuclidStep(old_r, r);
      old_r, r := r, old_r - q * r;
      old_s, s := s, old_s - q * s;
    }
    x := Mod(old_s, m);
    EuclidInverseIsBezout(a, m);
  }

  lemma EuclidStep(a: nat, b: nat)
    requires b > 0
    ensures TruncDiv(a, b) == a / b && a - (a / b) * b == a % b
  {
  }

  method BytesToScalar(bytes: Bytes, p: int) returns (s: int)
    requires p > 0
    ensures s == LeValue(bytes) % p
  {
    hide TruncRem, TruncDiv, LeValue;
    var res: int := 0;
    var i := |bytes| - 1;
    LeNothing(bytes[i + 1..]);
    while i >= 0
      invariant -1 <= i < |bytes|
      invariant res == LeValue(bytes[i + 1..])
    {
      LeStep(bytes, i);
      res := res * 256 + bytes[i];
      i := i - 1;
    }
    assert bytes[0..] == bytes;
    NonNegativeRem(res, p);
    s := TruncRem(res, p);
  }

  /** For what is not negative the truncating remainder is the Euclidean one. */
  lemma NonNegativeRem(n: nat, p: int)
    requires p > 0
    ensures TruncRem(n, p) == n % p
  {
  }

  method ScalarToBytes(s: int, p: int) returns (bytes: Bytes)
    requires p > 0
    ensures bytes == LeBytes(s % p, 32)
  {
    bytes := LowBytes(Mod(s, p), 32);
  }

  /** Takes length bytes off temp, the lowest first. */
  method LowBytes(value: nat, length: nat) returns (bytes: Bytes)
    ensures bytes == LeBytes(value, length)
  {
    bytes := [];
    var temp := value;
    for i := 0 to length
      invariant |bytes| == i
      invariant bytes + LeBytes(temp, length - i) == LeBytes(value, length)
    {
      bytes := bytes + [temp % 256];
      temp := temp / 256;
    }
    assert bytes + [] == bytes;
  }

  // ---- Dealing -----------------------------------------------------------------------

  /** The coefficients the dealer evaluates: the secret and threshold - 1 draws. */
  function Coefficients(secret: int, threshold: int, random: nat -> int): (cs: seq<int>)
    ensures |cs| == if threshold < 1 then 1 else threshold
    ensures cs[0] == secret && forall i :: 0 < i < |cs| ==> cs[i] == random(i - 1)
  {
    [secret] + Shamir.Draws(random, if threshold < 1 then 0 else threshold - 1)
  }

  /** Share generation with running powers of x; the public key is the secret times the base point. */
  method GenerateShamirShares(S: Suite, secret: int, threshold: int, totalNodes: int, random: nat -> int)
    returns (groupPublicKey: Bytes, shares: map<int, int>)
    requires Order(S) > 0
    ensures groupPublicKey == S.ed.mul(secret, S.ed.base)
    ensures forall i :: i in shares <==> 1 <= i <= totalNodes
    ensures forall i :: i in shares ==> shares[i] == Eval(Coefficients(secret, threshold, random), i) % Order(S)
    ensures forall i :: i in shares ==>
              shares[i] == (secret + Shamir.DrawSum(random, if threshold < 1 then 0 else threshold - 1, i)) % Order(S)
  {
    var p := Order(S);
    groupPublicKey := S.ed.mul(secret, S.ed.base);
    var coeffs := [secret];
    var i := 1;
    while i < threshold
      invariant 1 <= i && (threshold >= 1 ==> i <= threshold) && (threshold < 1 ==> i == 1)
      invariant coeffs == [secret] + Shamir.Draws(random, i - 1)
    {
      coeffs := coeffs + [random(i - 1)];
      i := i + 1;
    }
    assert coeffs == Coefficients(secret, threshold, random);
    shares := map[];
    i := 1;
    while i <= totalNodes
      invariant 1 <= i && (i <= totalNodes + 1 || i == 1)
      invariant forall k :: k in shares <==> 1 <= k < i
      invariant forall k :: k in shares ==> shares[k] == Eval(coeffs, k) % p
    {
      var y := EvalByPowers(coeffs, i, p);
      shares := shares[i := y];
      i := i + 1;
    }
    forall i | i in shares
      ensures shares[i] == (secret + Shamir.DrawSum(random, |coeffs| - 1, i)) % p
    {
      Shamir.EvalOfDraws(secret, random, |coeffs| - 1, i);
    }
  }

  /** The inner loop of share generation: y collects the terms, xPow the power of x. */
  method EvalByPowers(coeffs: seq<int>, x: int, p: int) returns (y: int)
    requires p > 0
    ensures y == Eval(coeffs, x) % p
  {
    hide Eval, Pow;
    var xPow := 1;
    y := 0;
    PowerSumStart(coeffs, x, p);
    for k := 0 to |coeffs|
      invariant y == Eval(coeffs[..k], x) % p
      invariant xPow % p == Pow(x, k) % p
    {
      PowerSumStep(coeffs, k, x, y, xPow, p);
      y := Mod(y + coeffs[k] * xPow, p);
      xPow := Mod(xPow * x, p);
    }
    assert coeffs[..|coeffs|] == coeffs;
  }

  lemma PowerSumStart(coeffs: seq<int>, x: int, p: int)
    requires p > 0
    ensures Eval(coeffs[..0], x) % p == 0 && Pow(x, 0) == 1
  {
    ModUnique(0, 0, 0, p);
  }

  lemma PowerSumStep(coeffs: seq<int>, k: nat, x: int, y: int, xPow: int, p: int)
    requires p > 0 && k < |coeffs|
    requires y == Eval(coeffs[..k], x) % p && xPow % p == Pow(x, k) % p
    ensures (y + coeffs[k] * xPow) % p == Eval(coeffs[..k + 1], x) % p
    ensures ((xPow * x) % p) % p == Pow(x, k + 1) % p
  {
    var c, e := coeffs[k], Eval(coeffs[..k], x);
    EvalSnoc(coeffs[..k], c, x);
    assert coeffs[..k + 1] == coeffs[..k] + [c];
    ModSelf(e, p);
    CongMul(c, xPow, Pow(x, k), p);
    Cong(y, e, c * xPow, c * Pow(x, k), p);
    ModSelf(xPow * x, p);
    CongMul(x, xPow, Pow(x, k), p);
    assert xPow * x == x * xPow;
  }

  // ---- Lagrange coefficients ---------------------------------------------------------

  function NegFactor(x: int): int -> int { (j: int) => if j == x then 1 else -j }

  function DiffFactor(x: int): int -> int { (j: int) => if j == x then 1 else x - j }

  /** Lagrange coefficient with numerator -j and denominator i - j. */
  function LagrangeValue(i: int, participants: seq<int>, p: int): int
    requires p > 0
  {
    (Product(Map(NegFactor(i), participants)) * EuclidInverse(Product(Map(DiffFactor(i), participants)), p)) % p
  }

  method LagrangeCoefficient(i: int, participants: seq<int>, p: int) returns (r: int)
    requires p > 0
    ensures r == LagrangeValue(i, participants, p)
  {
    var num, den := 1, 1;
    hide Product, EuclidInverse;
    LagrangeStart(i, participants);
    for k := 0 to |participants|
      invariant num % p == Product(Map(NegFactor(i), participants[..k])) % p
      invariant den % p == Product(Map(DiffFactor(i), participants[..k])) % p
    {
      var j := participants[k];
      LagrangeStep(i, participants, k, num, den, p);
      if j == i { continue; }
      num := Mod(num * -j, p);
      den := Mod(den * (i - j), p);
    }
    assert participants[..|participants|] == participants;
    var inv := ModInverse(den, p);
    LagrangeEnd(i, participants, num, den, p);
    r := Mod(num * inv, p);
  }

  lemma LagrangeStart(i: int, participants: seq<int>)
    ensures Product(Map(NegFactor(i), participants[..0])) == 1 && Product(Map(DiffFactor(i), participants[..0])) == 1
  {
  }

  lemma LagrangeStep(i: int, ps: seq<int>, k: nat, num: int, den: int, p: int)
    requires p > 0 && k < |ps|
    requires num % p == Product(Map(NegFactor(i), ps[..k])) % p
    requires den % p == Product(Map(DiffFactor(i), ps[..k])) % p
    ensures var n, d := Product(Map(NegFactor(i), ps[..k + 1])), Product(Map(DiffFactor(i), ps[..k + 1]));
            if ps[k] == i then num % p == n % p && den % p == d % p
            else ((num * -ps[k]) % p) % p == n % p && ((den * (i - ps[k])) % p) % p == d % p
  {
    hide Product;
    var j := ps[k];
    PrefixStep(ps, k);
    ProductMapLast(NegFactor(i), ps[..k + 1]);
    ProductMapLast(DiffFactor(i), ps[..k + 1]);
    Cong(num, Product(Map(NegFactor(i), ps[..k])), -j, -j, p);
    Cong(den, Product(Map(DiffFactor(i), ps[..k])), i - j, i - j, p);
    ModSelf(num * -j, p);
    ModSelf(den * (i - j), p);
  }

  lemma LagrangeEnd(i: int, ps: seq<int>, num: int, den: int, p: int)
    requires p > 0
    requires num % p == Product(Map(NegFactor(i), ps)) % p
    requires den % p == Product(Map(DiffFactor(i), ps)) % p
    ensures (num * EuclidInverse(den, p)) % p == LagrangeValue(i, ps, p)
  {
    var inv := EuclidInverse(den, p);
    Shamir.InverseOfReduced(den, Product(Map(DiffFactor(i), ps)), p);
    Cong(num, Product(Map(NegFactor(i), ps)), inv, inv, p);
  }

  /** Both sign conventions differ from each other by the same sign in numerator and denominator. */
  lemma {:induction false} CommonSign(x: int, ids: seq<int>) returns (s: int)
    ensures s * s == 1
    ensures Product(Map(NegFactor(x), ids)) == s * Num(ids, x)
    ensures Product(Map(DiffFactor(x), ids)) == s * Den(ids, x)
  {
    if ids == [] {
      s := 1;
    } else {
      var s' := CommonSign(x, Front(ids));
      LastFactor(x, ids);
      hide Product, Map, Num, Den;
      s := if Last(ids) == x then s' else -s';
      if Last(ids) != x {
        SignStep(s', Num(Front(ids), x), Last(ids), s);
        SignStep(s', Den(Front(ids), x), Last(ids) - x, s);
      }
    }
  }

  /** What the last id contributes to the four products. */
  lemma LastFactor(x: int, ids: seq<int>)
    requires ids != []
    ensures var f, j := Front(ids), Last(ids);
            && Product(Map(NegFactor(x), ids)) == Product(Map(NegFactor(x), f)) * (if j == x then 1 else -j)
            && Product(Map(DiffFactor(x), ids)) == Product(Map(DiffFactor(x), f)) * (if j == x then 1 else -(j - x))
            && Num(ids, x) == Num(f, x) * (if j == x then 1 else j)
            && Den(ids, x) == Den(f, x) * (if j == x then 1 else j - x)
  {
    ProductMapLast(NegFactor(x), ids);
    ProductMapLast(DiffFactor(x), ids);
    ProductMapLast(NumFactor(x), ids);
    ProductMapLast(DenFactor(x), ids);
    hide Product, Map;
  }

  lemma SignStep(s: int, n: int, f: int, t: int)
    requires t == -s
    ensures (s * n) * -f == t * (n * f) && t * t == s * s
  {
  }

  /** The Lagrange routine of frost.ts and the one of shamir.ts compute the same coefficient. */
  lemma LagrangeRoutinesAgree(i: int, ids: seq<int>, p: int)
    requires IsPrime(p) && ValidIds(ids, p) && 0 < i < p
    ensures LagrangeValue(i, ids, p) == Lambda(ids, i, p)
  {
    hide Num, Den, Product, Lambda, ValidIds;
    var s := CommonSign(i, ids);
    DenNonZero(ids, i, p);
    var n, d := Num(ids, i), Den(ids, i);
    var dn, nn := Product(Map(DiffFactor(i), ids)), Product(Map(NegFactor(i), ids));
    SignedQuotient(s, n, d, p);
    LambdaQuotient(ids, i, p);
  }

  lemma SignedQuotient(s: int, n: int, d: int, p: int)
    requires IsPrime(p) && s * s == 1 && d % p != 0
    ensures var l := (s * n * EuclidInverse(s * d, p)) % p; 0 <= l < p && (l * d) % p == n % p
  {
    hide EuclidInverse;
    assert s * (s * d) == d by {
      MulAssoc(s, s, d);
    }
    if (s * d) % p == 0 {
      ScaledZero(s, s * d, p);
    }
    InverseWorks(s * d, p);
    var e := EuclidInverse(s * d, p);
    var l := (s * n * e) % p;
    ModSelf(s * n * e, p);
    Cong(l, s * n * e, d, d, p);
    ModUnique(1, 0, 1, p);
    Cong(s * d * e, 1, n, n, p);
    assert (s * n * e) * d == (s * d * e) * n by {
      MulAssoc(s * n, e, d);
      MulAssoc(s, n, e * d);
      MulAssoc(s * d, e, n);
      MulAssoc(s, d, e * n);
      SwapFactors(n, e, d);
      assert d * (e * n) == e * (n * d) by { SwapFactors(d, e, n); }
    }
  }

  lemma ScaledZero(s: int, x: int, p: int)
    requires p > 0 && x % p == 0
    ensures (s * x) % p == 0
  {
    ModUnique(0, 0, 0, p);
    CongMul(s, x, 0, p);
    assert s * 0 == 0;
  }

  // ---- Binding factors ---------------------------------------------------------------

  /** The comparison that commitments are sorted by. */
  predicate IdLeq(a: Commitment, b: Commitment) { a.nodeId <= b.nodeId }

  function SortById(s: seq<Commitment>): seq<Commitment> { SortBy(IdLeq, s) }

  function CommitmentBytes(s: seq<Commitment>): Bytes
  {
    if s == [] then [] else CommitmentBytes(Front(s)) + [ToByte(Last(s).nodeId)] + Last(s).D + Last(s).E
  }

  function BindingInput(nodeId: int, msg: Bytes, commitments: seq<Commitment>): Bytes
  {
    [ToByte(nodeId)] + msg + CommitmentBytes(SortById(commitments))
  }

  function BindingFactor(S: Suite, nodeId: int, msg: Bytes, commitments: seq<Commitment>): int
    requires Order(S) > 0
  {
    LeValue(S.sha512(BindingInput(nodeId, msg, commitments))) % Order(S)
  }

  method ComputeBindingFactor(S: Suite, nodeId: int, msg: Bytes, commitments: seq<Commitment>) returns (rho: int)
    requires Order(S) > 0
    ensures rho == BindingFactor(S, nodeId, msg, commitments)
  {
    var sorted := SortById(commitments);
    var commBytes: seq<int> := [];
    for i := 0 to |sorted|
      invariant Map<int, byte>(ToByte, commBytes) == CommitmentBytes(sorted[..i])
    {
      var c := sorted[i];
      PrefixStep(sorted, i);
      MapBytes(c.D);
      MapBytes(c.E);
      ghost var before := commBytes;
      commBytes := commBytes + [c.nodeId];
      commBytes := commBytes + c.D;
      commBytes := commBytes + c.E;
      assert Map<int, byte>(ToByte, commBytes)
             == Map<int, byte>(ToByte, before) + [ToByte(c.nodeId)] + Map<int, byte>(ToByte, c.D)
                + Map<int, byte>(ToByte, c.E);
    }
    assert sorted[..|sorted|] == sorted;
    var hashInput := [ToByte(nodeId)] + msg + Map<int, byte>(ToByte, commBytes);
    rho := BytesToScalar(S.sha512(hashInput), Order(S));
  }

  lemma MapBytes(b: Bytes)
    ensures Map<int, byte>(ToByte, b) == b
  {
    var ints: seq<int> := b;
    var m := Map<int, byte>(ToByte, ints);
    forall i | 0 <= i < |b|
      ensures m[i] == b[i]
    {
      ModUnique(b[i], 0, b[i], 256);
      assert m[i] == ToByte(ints[i]);
    }
    assert m == b;
    assert Map<int, byte>(ToByte, b) == m;
  }

  // ---- Group commitment, challenge, shares -------------------------------------------

  predicate PointsOk(S: Suite, commitments: seq<Commitment>)
  {
    forall i :: 0 <= i < |commitments| ==> S.ed.valid(commitments[i].D) && S.ed.valid(commitments[i].E)
  }

  /** D + rho E, the part of one signer. */
  function Part(S: Suite, msg: Bytes, commitments: seq<Commitment>): Commitment -> Bytes
    requires Order(S) > 0
  {
    (c: Commitment) => S.ed.add(c.D, S.ed.mul(BindingFactor(S, c.nodeId, msg, commitments), c.E))
  }

  function Parts(S: Suite, msg: Bytes, commitments: seq<Commitment>): (r: seq<Bytes>)
    requires Order(S) > 0
    ensures |r| == |commitments|
  {
    Map(Part(S, msg, commitments), commitments)
  }

  /** The group commitment R, or a refusal when some D or E is not a point. */
  function GroupCommitment(S: Suite, msg: Bytes, commitments: seq<Commitment>): Result<Bytes>
    requires Order(S) > 0
  {
    if PointsOk(S, commitments) then Ok(SumPoints(S.ed, Parts(S, msg, commitments))) else Err(BadPoint)
  }

  method ComputeGroupCommitment(S: Suite, msg: Bytes, commitments: seq<Commitment>) returns (r: Result<Bytes>)
    requires Order(S) > 0
    ensures r == GroupCommitment(S, msg, commitments)
  {
    hide BindingFactor;
    var R := S.ed.zero;
    for i := 0 to |commitments|
      invariant forall k :: 0 <= k < i ==> S.ed.valid(commitments[k].D) && S.ed.valid(commitments[k].E)
      invariant R == SumPoints(S.ed, Parts(S, msg, commitments)[..i])
    {
      var comm := commitments[i];
      var rho := ComputeBindingFactor(S, comm.nodeId, msg, commitments);
      if !S.ed.valid(comm.D) || !S.ed.valid(comm.E) {
        return Err(BadPoint);
      }
      var part := S.ed.add(comm.D, S.ed.mul(rho, comm.E));
      PrefixStep(Parts(S, msg, commitments), i);
      R := S.ed.add(R, part);
    }
    assert Parts(S, msg, commitments)[..|commitments|] == Parts(S, msg, commitments);
    return Ok(R);
  }

  function Challenge(S: Suite, R: Bytes, groupPublicKey: Bytes, msg: Bytes): int
    requires Order(S) > 0
  {
    LeValue(S.sha512(R + groupPublicKey + msg)) % Order(S)
  }

  /** d + rho e + lambda s c modulo the order, or the refusal of the group commitment. */
  function SignatureShare(S: Suite, nodeId: int, nonces: Nonces, secretKeyShare: int, msg: Bytes,
                          commitments: seq<Commitment>, groupPublicKey: Bytes, participants: seq<int>): Result<int>
    requires Order(S) > 0
  {
    match GroupCommitment(S, msg, commitments)
    case Err(e) => Err(e)
    case Ok(R) =>
      var rho := BindingFactor(S, nodeId, msg, commitments);
      var c := Challenge(S, R, groupPublicKey, msg);
      var lambda := LagrangeValue(nodeId, participants, Order(S));
      Ok((nonces.d + rho * nonces.e + lambda * secretKeyShare * c) % Order(S))
  }

  method ComputeSignatureShare(S: Suite, nodeId: int, nonces: Nonces, secretKeyShare: int, msg: Bytes,
                               commitments: seq<Commitment>, groupPublicKey: Bytes, allParticipants: seq<int>)
    returns (r: Result<int>)
    requires Order(S) > 0
    ensures r == SignatureShare(S, nodeId, nonces, secretKeyShare, msg, commitments, groupPublicKey, allParticipants)
  {
    var rho := ComputeBindingFactor(S, nodeId, msg, commitments);
    var R := ComputeGroupCommitment(S, msg, commitments);
    if R.Err? {
      return Err(R.error);
    }
    var c := BytesToScalar(S.sha512(R.value + groupPublicKey + msg), Order(S));
    var lambda := LagrangeCoefficient(nodeId, allParticipants, Order(S));
    return Ok(Mod(nonces.d + rho * nonces.e + lambda * secretKeyShare * c, Order(S)));
  }

  /** R followed by the 32 little-endian bytes of the sum of the shares. */
  function Aggregate(R: Bytes, shares: seq<int>, p: int): Bytes
    requires p > 0
  {
    R + LeBytes(Sum(shares) % p, 32)
  }

  method AggregateSignatureShares(R: Bytes, shares: seq<int>, p: int) returns (signature: Bytes)
    requires p > 0
    ensures signature == Aggregate(R, shares, p)
  {
    var z := 0;
    ModUnique(0, 0, 0, p);
    for i := 0 to |shares|
      invariant z == Sum(shares[..i]) % p
    {
      PrefixStep(shares, i);
      ModSelf(Sum(shares[..i]), p);
      Cong(z, Sum(shares[..i]), shares[i], shares[i], p);
      z := Mod(z + shares[i], p);
    }
    assert shares[..|shares|] == shares;
    ModSelf(Sum(shares), p);
    var zBytes := ScalarToBytes(z, p);
    signature := R + zBytes;
  }

  /**
   * The check of section 5.1.7 of RFC 8032: S is canonical, and S times the base point is R plus
   * k times the key, for k the hash of R, key and message.
   */
  predicate Verifies(S: Suite, signature: Bytes, msg: Bytes, publicKey: Bytes)
    requires Order(S) > 0
  {
    && |signature| == 64
    && var R, s := signature[..32], LeValue(signature[32..]);
    && S.ed.valid(R) && S.ed.valid(publicKey) && s < Order(S)
    && S.ed.mul(s, S.ed.base) == S.ed.add(R, S.ed.mul(LeValue(S.sha512(R + publicKey + msg)), publicKey))
  }
}
