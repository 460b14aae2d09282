/**
 * The first n share ids when n reaches the size of the field: with every residue in the quorum, zero
 * among them, interpolation still gives the secret; with one id more, two ids coincide and it fails.
 */
module FullField {
  import opened Arith
  import opened Seqs
  import opened Interpolation
  import opened Shamir

  /** The ids a split numbers its shares with. */
  ghost predicate CountedIds(ids: seq<int>)
  {
    forall i :: 0 <= i < |ids| ==> ids[i] == i + 1
  }

  lemma {:induction false} DenOfCounted(ids: seq<int>, x: int, p: int)
    requires IsPrime(p) && CountedIds(ids) && |ids| <= p && 1 <= x <= p
    ensures Den(ids, x) % p != 0
  {
    ModUnique(1, 0, 1, p);
    if ids != [] {
      var j := Last(ids);
      DenOfCounted(Front(ids), x, p);
      ProductMapLast(DenFactor(x), ids);
      if j != x {
        SmallDifference(j, x, p);
      }
      NonZeroProduct(Den(Front(ids), x), if j == x then 1 else j - x, p);
    }
  }

  lemma SmallDifference(j: int, x: int, p: int)
    requires 1 <= j <= p && 1 <= x <= p && j != x
    ensures (j - x) % p != 0
  {
    if j > x {
      ModUnique(j - x, 0, j - x, p);
    } else {
      ModUnique(j - x, -1, j - x + p, p);
    }
  }

  /** One factor that is zero modulo p makes the whole product zero. */
  lemma {:induction false} ZeroFactor(f: int -> int, ids: seq<int>, k: nat, p: int)
    requires p > 0 && k < |ids| && f(ids[k]) % p == 0
    ensures Product(Map(f, ids)) % p == 0
  {
    ProductMapLast(f, ids);
    var q := Product(Map(f, Front(ids)));
    if k < |ids| - 1 {
      ZeroFactor(f, Front(ids), k, p);
      ProductWithZero(q, f(Last(ids)), p);
    } else {
      ProductWithZero(f(Last(ids)), q, p);
    }
  }

  /** Differences to p are the ids themselves. */
  lemma {:induction false} DenAtOrder(ids: seq<int>, p: int)
    requires p > 0
    ensures Den(ids, p) % p == Num(ids, p) % p
  {
    if ids != [] {
      var j, d, n := Last(ids), Den(Front(ids), p), Num(Front(ids), p);
      DenAtOrder(Front(ids), p);
      ProductMapLast(DenFactor(p), ids);
      ProductMapLast(NumFactor(p), ids);
      hide Product, Map;
      if j != p {
        ModShift(j - p, j, -1, p);
        Cong(d, n, j - p, j, p);
      }
    }
  }

  /** With all residues present, the id that is zero carries the whole weight. */
  lemma FullLambda(ids: seq<int>, x: int, p: int)
    requires IsPrime(p) && CountedIds(ids) && |ids| == p && 1 <= x <= p
    ensures Lambda(ids, x, p) == if x == p then 1 else 0
  {
    DenOfCounted(ids, x, p);
    LambdaQuotient(ids, x, p);
    var d, l := Den(ids, x), if x == p then 1 else 0;
    if x == p {
      DenAtOrder(ids, p);
      assert 1 * d == d;
    } else {
      ModUnique(p, 1, 0, p);
      ZeroFactor(NumFactor(x), ids, p - 1, p);
      ModUnique(0, 0, 0, p);
      assert 0 * d == 0;
    }
    assert (l * d) % p == Num(ids, x) % p;
  }

  lemma {:induction false} FullWeighted(ids: seq<int>, shares: seq<Share>, p: int)
    requires IsPrime(p) && CountedIds(ids) && |ids| == p && |shares| <= p && CountedIds(Ids(shares))
    ensures Weighted(ids, shares, p) == if |shares| == p then Last(shares).value else 0
  {
    hide Lambda;
    if shares != [] {
      FullLambda(ids, Last(shares).id, p);
      FullWeighted(ids, Front(shares), p);
      assert Ids(Front(shares)) == Front(Ids(shares));
    }
  }

  /** A split into as many shares as there are residues still reconstructs. */
  lemma FullQuorum(shares: seq<Share>, cs: seq<int>, p: int)
    requires IsPrime(p) && |shares| == p && CountedIds(Ids(shares)) && cs != [] && OnPolynomial(shares, cs, p)
    ensures Weighted(Ids(shares), shares, p) % p == cs[0] % p
    ensures Invertible(Ids(shares), |shares|, p)
  {
    var ids := Ids(shares);
    FullWeighted(ids, shares, p);
    ModUnique(p, 1, 0, p);
    ModUnique(0, 0, 0, p);
    EvalCongruent(cs, p, 0, p);
    EvalAtZero(cs);
    forall i | 0 <= i < |ids|
      ensures !Singular(ids, ids[i], p)
    {
      DenOfCounted(ids, ids[i], p);
    }
  }

  /** One share more than residues, and the first id has a double. */
  lemma TooManyIds(ids: seq<int>, p: int)
    requires p > 0 && CountedIds(ids) && |ids| > p
    ensures !Invertible(ids, |ids|, p)
  {
    ModUnique(p, 1, 0, p);
    ZeroFactor(DenFactor(1), ids, p, p);
    assert Singular(ids, ids[0], p);
  }
}
