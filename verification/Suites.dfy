/**
 * What the token code takes from its libraries: two groups of prime order, hashes, authenticated
 * encryption, and the readers of JSON and base64url. Points are their 32-byte encodings. Each law is
 * a predicate over one instance, so that a proof names the instances it uses.
 */
module Suites {
  import opened Arith
  import opened Seqs
  import opened Bytes
  import opened Json
  import Utf8
  import Base64Url

  /** A group of prime order, written additively, with its scalar multiplication. */
  datatype Group = Group(
    order: int,
    zero: Bytes,
    base: Bytes,
    valid: Bytes -> bool,
    add: (Bytes, Bytes) -> Bytes,
    mul: (int, Bytes) -> Bytes)

  ghost predicate UnitLaw(G: Group, x: Bytes)
  {
    G.valid(x) ==> |x| == 32 && G.add(G.zero, x) == x && G.mul(0, x) == G.zero && G.mul(1, x) == x
                   && G.mul(G.order, x) == G.zero
  }

  ghost predicate AddLaw(G: Group, x: Bytes, y: Bytes, z: Bytes)
  {
    G.valid(x) && G.valid(y) && G.valid(z) ==>
      G.valid(G.add(x, y)) && G.add(x, y) == G.add(y, x) && G.add(G.add(x, y), z) == G.add(x, G.add(y, z))
  }

  ghost predicate MulLaw(G: Group, a: int, b: int, x: Bytes)
  {
    G.valid(x) ==>
      G.valid(G.mul(a, x)) && G.mul(a + b, x) == G.add(G.mul(a, x), G.mul(b, x))
      && G.mul(a * b, x) == G.mul(a, G.mul(b, x))
  }

  ghost predicate DistributeLaw(G: Group, a: int, x: Bytes, y: Bytes)
  {
    G.valid(x) && G.valid(y) ==> G.mul(a, G.add(x, y)) == G.add(G.mul(a, x), G.mul(a, y))
  }

  ghost predicate IsGroup(G: Group)
  {
    && IsPrime(G.order)
    && G.valid(G.zero) && G.valid(G.base)
    && (forall x :: UnitLaw(G, x))
    && (forall x, y, z :: AddLaw(G, x, y, z))
    && (forall a, b, x :: MulLaw(G, a, b, x))
    && (forall a, x, y :: DistributeLaw(G, a, x, y))
  }

  // ---- Consequences ------------------------------------------------------------------

  lemma MulValid(G: Group, a: int, x: Bytes)
    requires IsGroup(G) && G.valid(x)
    ensures G.valid(G.mul(a, x))
  {
    assert MulLaw(G, a, a, x);
  }

  lemma BaseValid(G: Group)
    requires IsGroup(G)
    ensures G.valid(G.base)
  {
  }

  lemma AddValid(G: Group, x: Bytes, y: Bytes)
    requires IsGroup(G) && G.valid(x) && G.valid(y)
    ensures G.valid(G.add(x, y))
  {
    assert AddLaw(G, x, y, x);
  }

  /** Scalars act modulo the order. */
  lemma MulReduce(G: Group, a: int, x: Bytes)
    requires IsGroup(G) && G.valid(x)
    ensures G.mul(a % G.order, x) == G.mul(a, x)
  {
    var p := G.order;
    var q, r := a / p, a % p;
    assert UnitLaw(G, x);
    assert MulLaw(G, q, p, x);
    assert MulLaw(G, q * p, r, x);
    MulZero(G, q);
    assert q * p + r == a;
    MulValid(G, r, x);
    assert UnitLaw(G, G.mul(r, x));
  }

  lemma MulZero(G: Group, a: int)
    requires IsGroup(G)
    ensures G.mul(a, G.zero) == G.zero
  {
    assert UnitLaw(G, G.zero);
    assert MulLaw(G, a, 0, G.zero);
    assert a * 0 == 0;
  }

  lemma MulCong(G: Group, a: int, b: int, x: Bytes)
    requires IsGroup(G) && G.valid(x) && a % G.order == b % G.order
    ensures G.mul(a, x) == G.mul(b, x)
  {
    MulReduce(G, a, x);
    MulReduce(G, b, x);
  }

  lemma MulLength(G: Group, a: int, x: Bytes)
    requires IsGroup(G) && G.valid(x)
    ensures |G.mul(a, x)| == 32
  {
    MulValid(G, a, x);
    assert UnitLaw(G, G.mul(a, x));
  }

  /** Only the zero point has the same multiple for scalars that differ modulo the order. */
  lemma MulSame(G: Group, a: int, b: int, x: Bytes)
    requires IsGroup(G) && G.valid(x)
    ensures G.mul(a, x) == G.mul(b, x) <==> a % G.order == b % G.order || x == G.zero
  {
    if a % G.order == b % G.order {
      MulCong(G, a, b, x);
    } else if x == G.zero {
      MulZero(G, a);
      MulZero(G, b);
    } else if G.mul(a, x) == G.mul(b, x) {
      MulEqual(G, a, b, x);
      CongZero(a, b, G.order);
      MulCancel(G, a - b, x);
    }
  }

  lemma MulEqual(G: Group, a: int, b: int, x: Bytes)
    requires IsGroup(G) && G.valid(x) && G.mul(a, x) == G.mul(b, x)
    ensures G.mul(a - b, x) == G.zero
  {
    assert MulLaw(G, a, -b, x);
    assert MulLaw(G, b, -b, x);
    assert UnitLaw(G, x);
  }

  /** Multiplying by a non-zero scalar tells points apart. */
  lemma MulInjective(G: Group, c: int, x: Bytes, y: Bytes)
    requires IsGroup(G) && G.valid(x) && G.valid(y) && c % G.order != 0 && G.mul(c, x) == G.mul(c, y)
    ensures x == y
  {
    DivideOut(G, c, x);
    DivideOut(G, c, y);
  }

  /** Multiples by one scalar are equal exactly when the scalar is zero or the points are. */
  lemma EqualMultiples(G: Group, c: int, x: Bytes, y: Bytes)
    requires IsGroup(G) && G.valid(x) && G.valid(y)
    ensures G.mul(c, x) == G.mul(c, y) <==> x == y || c % G.order == 0
  {
    if c % G.order != 0 {
      if G.mul(c, x) == G.mul(c, y) {
        MulInjective(G, c, x, y);
      }
    } else {
      ModUnique(0, 0, 0, G.order);
      MulCong(G, c, 0, x);
      MulCong(G, c, 0, y);
      assert UnitLaw(G, x) && UnitLaw(G, y);
    }
  }

  lemma DivideOut(G: Group, c: int, x: Bytes)
    requires IsGroup(G) && G.valid(x) && c % G.order != 0
    ensures G.mul(EuclidInverse(c, G.order), G.mul(c, x)) == x
  {
    var p := G.order;
    var i := EuclidInverse(c, p);
    InverseWorks(c, p);
    hide EuclidInverse;
    assert MulLaw(G, i, c, x);
    ModUnique(1, 0, 1, p);
    assert i * c == c * i;
    MulCong(G, i * c, 1, x);
    assert UnitLaw(G, x);
  }

  /** Prime order: a non-zero scalar can be divided out. */
  lemma MulCancel(G: Group, c: int, x: Bytes)
    requires IsGroup(G) && G.valid(x) && G.mul(c, x) == G.zero && c % G.order != 0
    ensures x == G.zero
  {
    DivideOut(G, c, x);
    MulZero(G, EuclidInverse(c, G.order));
  }

  /** The sum of a list of points. */
  function SumPoints(G: Group, pts: seq<Bytes>): Bytes { Fold(G.add, G.zero, pts) }

  ghost predicate AllValid(G: Group, pts: seq<Bytes>)
  {
    forall i :: 0 <= i < |pts| ==> G.valid(pts[i])
  }

  lemma AddReorders(G: Group)
    requires IsGroup(G)
    ensures Reorderable(G.add, G.valid)
  {
    forall x, y, z
      ensures Swaps(G.add, G.valid, x, y, z)
    {
      assert AddLaw(G, x, y, z);
      assert AddLaw(G, x, z, y);
      assert AddLaw(G, y, z, x);
    }
  }

  lemma PointSumPermutation(G: Group, pts: seq<Bytes>, pts': seq<Bytes>)
    requires IsGroup(G) && AllValid(G, pts) && multiset(pts) == multiset(pts')
    ensures SumPoints(G, pts) == SumPoints(G, pts')
  {
    AddReorders(G);
    FoldPermutation(G.add, G.zero, G.valid, pts, pts');
  }

  /** Multiples of one point add up like their scalars. */
  lemma {:induction false} SumOfMultiples(G: Group, ks: seq<int>, x: Bytes, pts: seq<Bytes>)
    requires IsGroup(G) && G.valid(x) && |pts| == |ks|
    requires forall i :: 0 <= i < |ks| ==> pts[i] == G.mul(ks[i], x)
    ensures SumPoints(G, pts) == G.mul(Sum(ks), x)
  {
    hide IsGroup;
    if ks == [] {
      assert UnitLaw(G, x) by { UnitOf(G, x); }
    } else {
      SumOfMultiples(G, Front(ks), x, Front(pts));
      MulLawOf(G, Sum(Front(ks)), Last(ks), x);
    }
  }

  lemma UnitOf(G: Group, x: Bytes)
    requires IsGroup(G)
    ensures UnitLaw(G, x)
  {
  }

  lemma MulLawOf(G: Group, a: int, b: int, x: Bytes)
    requires IsGroup(G)
    ensures MulLaw(G, a, b, x)
  {
  }

  // ---- The suite ---------------------------------------------------------------------

  datatype Suite = Suite(
    ed: Group,                                     // Ed25519
    ristretto: Group,                              // ristretto255
    sha512: Bytes -> Bytes,
    sha256: Bytes -> Bytes,
    hashToCurve: Bytes -> Bytes,                   // 64 bytes to a ristretto point
    seal: (Bytes, Bytes, Bytes, Bytes) -> Bytes,   // key, nonce, plaintext, additional data
    open: (Bytes, Bytes, Bytes, Bytes) -> Option<Bytes>,
    parse: Bytes -> Option<Json>,                  // JSON.parse of UTF-8 text
    unbase64: string -> Bytes,                     // the lenient base64url decoder of Buffer
    toNumber: Json -> Option<int>,                 // numeric coercion; None is NaN
    toBigInt: Json -> Option<int>,                 // BigInt(value); None is an exception
    upper: string -> string)                       // toUpperCase

  function Order(S: Suite): int { S.ed.order }

  ghost predicate HashLaw(S: Suite, b: Bytes)
  {
    |S.sha512(b)| == 64 && |S.sha256(b)| == 32 && S.ristretto.valid(S.hashToCurve(b))
  }

  /** Authenticated encryption, idealised: a ciphertext opens only under what it was sealed with. */
  ghost predicate SealLaw(S: Suite, key: Bytes, nonce: Bytes, text: Bytes, aad: Bytes, key': Bytes, nonce': Bytes,
                          aad': Bytes)
  {
    S.open(key', nonce', S.seal(key, nonce, text, aad), aad')
    == if key' == key && nonce' == nonce && aad' == aad then Some(text) else None
  }

  ghost predicate ParseLaw(S: Suite, v: Json)
  {
    WellFormed(v) ==> S.parse(Utf8.Encode(Text(v))) == Some(v)
  }

  ghost predicate Base64Law(S: Suite, b: Bytes)
  {
    S.unbase64(Base64Url.UrlEncode(b)) == b
  }

  ghost predicate NumberLaw(S: Suite, n: int)
  {
    S.toNumber(Num(n)) == Some(n)
  }

  ghost predicate BigIntLaw(S: Suite, n: int)
  {
    S.toBigInt(Str(NumText(n))) == Some(n)
  }

  ghost predicate UpperLaw(S: Suite, s: string)
  {
    S.upper(S.upper(s)) == S.upper(s)
  }

  ghost predicate IsSuite(S: Suite)
  {
    && IsGroup(S.ed) && IsGroup(S.ristretto)
    && S.ristretto.order == S.ed.order <= Pow(256, 32)
    && (forall b :: HashLaw(S, b))
    && (forall k, n, m, a, k', n', a' :: SealLaw(S, k, n, m, a, k', n', a'))
    && (forall v :: ParseLaw(S, v))
    && (forall b :: Base64Law(S, b))
    && (forall n :: NumberLaw(S, n))
    && (forall n :: BigIntLaw(S, n))
    && (forall s :: UpperLaw(S, s))
  }

  lemma Unbase64Of(S: Suite, b: Bytes)
    requires IsSuite(S)
    ensures S.unbase64(Base64Url.UrlEncode(b)) == b
  {
    assert Base64Law(S, b);
  }

  lemma ToNumberOf(S: Suite, n: int)
    requires IsSuite(S)
    ensures S.toNumber(Num(n)) == Some(n)
  {
    assert NumberLaw(S, n);
  }

  lemma UpperTwice(S: Suite, s: string)
    requires IsSuite(S)
    ensures S.upper(S.upper(s)) == S.upper(s)
  {
    assert UpperLaw(S, s);
  }

  lemma OrderIsPrime(S: Suite)
    requires IsSuite(S)
    ensures IsPrime(Order(S)) && 0 < Order(S) <= Pow(256, 32) && S.ristretto.order == Order(S)
    ensures IsGroup(S.ed) && IsGroup(S.ristretto)
  {
  }
}
