/**
 * The threshold oblivious PRF of projects/node/src/crypto/toprf.ts: blinding, partial evaluation,
 * unblinding over a quorum, and the keys derived from the result. The blinding scalar is an argument.
 */
module Toprf {
  import opened Arith
  import opened Seqs
  import opened Bytes
  import opened Interpolation
  import opened Suites
  import opened Shamir
  import opened FullField
  import Utf8

  datatype Partial = Partial(id: int, point: Bytes)

  function U64(n: nat): Bytes { LeBytes(n, 8) }

  function U16(n: int): Bytes { LeBytes(n % 65536, 2) }

  // The texts that keep the hash uses apart.

  function GroupPrefix(): Bytes { Utf8.Encode("PASTA-TOPRF-H2") }

  function OutputPrefix(): Bytes { Utf8.Encode("PASTA-TOPRF-H1") }

  function ServerPrefix(): Bytes { Utf8.Encode("PASTA-TOPRF-H-PRIME") }

  // The inputs of the three hashes.

  function GroupInput(password: Bytes): Bytes { GroupPrefix() + U64(|password|) + password }

  function OutputInput(password: Bytes, v: Bytes): Bytes { OutputPrefix() + U64(|password|) + password + v }

  function ServerInput(h: Bytes, id: int): Bytes { ServerPrefix() + h + U16(id) }

  /** H_1: the password as a ristretto point. */
  function HashToGroup(S: Suite, password: Bytes): Bytes
  {
    S.hashToCurve(S.sha512(GroupInput(password)))
  }

  lemma HashToGroupValid(S: Suite, password: Bytes)
    requires IsSuite(S)
    ensures S.ristretto.valid(HashToGroup(S, password))
  {
    hide GroupInput;
    assert HashLaw(S, S.sha512(GroupInput(password)));
  }

  /** A = r H_1(password) */
  function Blind(S: Suite, password: Bytes, r: int): Bytes
  {
    S.ristretto.mul(r, HashToGroup(S, password))
  }

  /** B_i = k_i A */
  function Evaluate(S: Suite, keyShare: Share, blinded: Bytes): Bytes
  {
    S.ristretto.mul(keyShare.value, blinded)
  }

  /** The first 32 bytes of a SHA-512 digest: what is kept of the last two hashes. */
  function Digest32(S: Suite, input: Bytes): Bytes
  {
    var digest := S.sha512(input);
    if |digest| >= 32 then digest[..32] else digest
  }

  /** H_2: the master PRF output h. */
  function Finalize(S: Suite, password: Bytes, v: Bytes): Bytes { Digest32(S, OutputInput(password, v)) }

  /** H_3: the key h_i that node i shares with whoever knows the password. */
  function DeriveServerKey(S: Suite, h: Bytes, id: int): Bytes { Digest32(S, ServerInput(h, id)) }

  lemma ServerKeyLength(S: Suite, h: Bytes, id: int)
    requires IsSuite(S)
    ensures |DeriveServerKey(S, h, id)| == 32
  {
    hide ServerInput;
    assert HashLaw(S, ServerInput(h, id));
  }

  // ---- What the hashes are given -----------------------------------------------------

  lemma U16Exact(i: int, j: int)
    ensures U16(i) == U16(j) <==> i % 65536 == j % 65536
  {
    assert Pow(256, 2) == 65536;
    LeValueOfBytes(i % 65536, 2);
    LeValueOfBytes(j % 65536, 2);
  }

  /** The key of a node is derived from the PRF value and the low two bytes of the node's id, no more. */
  lemma ServerInputExact(h: Bytes, i: int, h': Bytes, j: int)
    ensures ServerInput(h, i) == ServerInput(h', j) <==> h == h' && i % 65536 == j % 65536
  {
    hide ServerPrefix, U16;
    assert |U16(i)| == |U16(j)| == 2 by { U16Length(i); U16Length(j); }
    U16Exact(i, j);
    if ServerInput(h, i) == ServerInput(h', j) {
      assert |h| == |h'|;
      ConcatInjective(ServerPrefix() + h, U16(i), ServerPrefix() + h', U16(j));
      ConcatInjective(ServerPrefix(), h, ServerPrefix(), h');
    }
  }

  lemma U16Length(i: int)
    ensures |U16(i)| == 2
  {
  }

  lemma U64Exact(m: nat, n: nat)
    requires m < Pow(256, 8) && n < Pow(256, 8)
    ensures |U64(m)| == |U64(n)| == 8
    ensures U64(m) == U64(n) <==> m == n
  {
    LeValueOfBytes(m, 8);
    LeValueOfBytes(n, 8);
  }

  /** The PRF output hash separates password and point, because the password's length goes first. */
  lemma OutputInputExact(pw: Bytes, v: Bytes, pw': Bytes, v': Bytes)
    requires |pw| < Pow(256, 8) && |pw'| < Pow(256, 8)
    ensures OutputInput(pw, v) == OutputInput(pw', v') <==> pw == pw' && v == v'
  {
    hide OutputPrefix, U64, Pow;
    U64Exact(|pw|, |pw'|);
    if OutputInput(pw, v) == OutputInput(pw', v') {
      var p := OutputPrefix();
      assert OutputInput(pw, v) == (p + U64(|pw|)) + (pw + v);
      assert OutputInput(pw', v') == (p + U64(|pw'|)) + (pw' + v');
      ConcatInjective(p + U64(|pw|), pw + v, p + U64(|pw'|), pw' + v');
      ConcatInjective(p, U64(|pw|), p, U64(|pw'|));
      ConcatInjective(pw, v, pw', v');
    }
  }

  /** Points have one length, so for them no bound on the password is needed. */
  lemma OutputInputOfPoints(pw: Bytes, v: Bytes, pw': Bytes, v': Bytes)
    requires |v| == |v'|
    ensures OutputInput(pw, v) == OutputInput(pw', v') <==> pw == pw' && v == v'
  {
    hide OutputPrefix, U64;
    if OutputInput(pw, v) == OutputInput(pw', v') {
      var p := OutputPrefix();
      U64Length(|pw|);
      U64Length(|pw'|);
      assert OutputInput(pw, v) == (p + U64(|pw|)) + (pw + v);
      assert OutputInput(pw', v') == (p + U64(|pw'|)) + (pw' + v');
      ConcatInjective(p + U64(|pw|), pw + v, p + U64(|pw'|), pw' + v');
      ConcatInjective(pw, v, pw', v');
    }
  }

  lemma U64Length(n: nat)
    ensures |U64(n)| == 8
  {
  }

  /** The password stands, behind its length, in what is hashed to a point. */
  lemma GroupInputFields(pw: Bytes)
    ensures var b := GroupInput(pw);
            && |b| == 22 + |pw| && b[..14] == Utf8.Encode("PASTA-TOPRF-H2") && b[22..] == pw
            && (|pw| < Pow(256, 8) ==> LeValue(b[14..22]) == |pw|)
  {
    hide Utf8.Encode, U64, Pow;
    Prefixes();
    U64Length(|pw|);
    LengthReads(|pw|);
    var b := GroupInput(pw);
    assert b[..14] == GroupPrefix() && b[14..22] == U64(|pw|);
  }

  lemma LengthReads(n: nat)
    ensures n < Pow(256, 8) ==> LeValue(U64(n)) == n
  {
    if n < Pow(256, 8) {
      LeValueOfBytes(n, 8);
    }
  }

  /** Password and point stand behind the password's length in what is hashed to the PRF value. */
  lemma OutputInputFields(pw: Bytes, v: Bytes)
    ensures var b := OutputInput(pw, v);
            && |b| == 22 + |pw| + |v| && b[..14] == Utf8.Encode("PASTA-TOPRF-H1")
            && b[22..22 + |pw|] == pw && b[22 + |pw|..] == v
            && (|pw| < Pow(256, 8) ==> LeValue(b[14..22]) == |pw|)
  {
    hide Utf8.Encode, U64, Pow;
    Prefixes();
    U64Length(|pw|);
    LengthReads(|pw|);
    var b := OutputInput(pw, v);
    assert b[..14] == OutputPrefix() && b[14..22] == U64(|pw|);
  }

  /** PRF value and the low two bytes of the id stand in what is hashed to a node's key. */
  lemma ServerInputFields(h: Bytes, id: int)
    ensures var b := ServerInput(h, id);
            && |b| == 21 + |h| && b[..19] == Utf8.Encode("PASTA-TOPRF-H-PRIME") && b[19..19 + |h|] == h
            && LeValue(b[19 + |h|..]) == id % 65536
  {
    hide Utf8.Encode, U16, LeValue;
    Prefixes();
    U16Length(id);
    U16Reads(id);
    var b := ServerInput(h, id);
    assert b[..19] == ServerPrefix() && b[19 + |h|..] == U16(id);
  }

  lemma U16Reads(id: int)
    ensures LeValue(U16(id)) == id % 65536
  {
    assert Pow(256, 2) == 65536;
    LeValueOfBytes(id % 65536, 2);
  }

  /** Passwords are told apart by what is hashed to a point, however long they are. */
  lemma GroupInputExact(pw: Bytes, pw': Bytes)
    ensures GroupInput(pw) == GroupInput(pw') <==> pw == pw'
  {
    hide GroupInput, Pow, LeValue, Utf8.Encode;
    GroupInputFields(pw);
    GroupInputFields(pw');
  }

  /** SHA-512 or the map to the curve takes two different passwords to one point. */
  ghost predicate PointsCoincide(S: Suite, pw: Bytes, pw': Bytes)
  {
    var x, y := S.sha512(GroupInput(pw)), S.sha512(GroupInput(pw'));
    GroupInput(pw) != GroupInput(pw') && (x == y || (x != y && S.hashToCurve(x) == S.hashToCurve(y)))
  }

  /** Two passwords have one point exactly when they are the same, or by a coincidence. */
  lemma PointsAgree(S: Suite, pw: Bytes, pw': Bytes)
    ensures HashToGroup(S, pw) == HashToGroup(S, pw') <==> pw == pw' || PointsCoincide(S, pw, pw')
  {
    hide GroupInput;
    GroupInputExact(pw, pw');
  }

  /** With one blinding, two passwords are blinded alike exactly when they have one point. */
  lemma BlindsAgree(S: Suite, pw: Bytes, pw': Bytes, r: int)
    requires IsSuite(S) && r % Order(S) != 0
    ensures Blind(S, pw, r) == Blind(S, pw', r) <==> pw == pw' || PointsCoincide(S, pw, pw')
  {
    hide IsSuite, IsGroup, IsPrime, HashToGroup, PointsCoincide;
    OrderIsPrime(S);
    PointsAgree(S, pw, pw');
    HashToGroupValid(S, pw);
    HashToGroupValid(S, pw');
    if Blind(S, pw, r) == Blind(S, pw', r) {
      MulInjective(S.ristretto, r, HashToGroup(S, pw), HashToGroup(S, pw'));
    }
  }

  /**
   * Obliviousness: whatever was blinded, every other password has exactly one reduced blinding that gives
   * the same blinded point, provided that the points are non-zero multiples of the base point.
   */
  lemma BlindingHides(S: Suite, pw: Bytes, r: int, pw': Bytes, a: int, b: int) returns (r': int)
    requires IsSuite(S) && r % Order(S) != 0 && a % Order(S) != 0 && b % Order(S) != 0
    requires HashToGroup(S, pw) == S.ristretto.mul(a, S.ristretto.base)
    requires HashToGroup(S, pw') == S.ristretto.mul(b, S.ristretto.base) != S.ristretto.zero
    ensures 0 < r' < Order(S) && Blind(S, pw', r') == Blind(S, pw, r)
    ensures forall q :: 0 <= q < Order(S) && Blind(S, pw', q) == Blind(S, pw, r) ==> q == r'
  {
    hide *;
    OrderIsPrime(S);
    var G, p := S.ristretto, Order(S);
    var w := r * a;
    NonZeroProduct(r, a, p);
    r' := Ratio(w, b, p);
    SameBlinding(S, pw, r, pw', a, b, r');
    forall q | 0 <= q < p && Blind(S, pw', q) == Blind(S, pw, r)
      ensures q == r'
    {
      OneBlinding(S, pw', q, r');
    }
  }

  lemma SameBlinding(S: Suite, pw: Bytes, r: int, pw': Bytes, a: int, b: int, r': int)
    requires IsSuite(S) && (r' * b) % Order(S) == (r * a) % Order(S)
    requires HashToGroup(S, pw) == S.ristretto.mul(a, S.ristretto.base)
    requires HashToGroup(S, pw') == S.ristretto.mul(b, S.ristretto.base)
    ensures Blind(S, pw', r') == Blind(S, pw, r)
  {
    hide IsSuite, IsPrime, IsGroup, HashToGroup;
    OrderIsPrime(S);
    var G := S.ristretto;
    BaseMultiple(G, r, a);
    BaseMultiple(G, r', b);
    BaseValid(G);
    MulCong(G, r' * b, r * a, G.base);
  }

  lemma OneBlinding(S: Suite, pw: Bytes, q: int, r: int)
    requires IsSuite(S) && 0 <= q < Order(S) && 0 <= r < Order(S) && HashToGroup(S, pw) != S.ristretto.zero
    requires Blind(S, pw, q) == Blind(S, pw, r)
    ensures q == r
  {
    hide IsSuite, IsPrime, IsGroup, HashToGroup;
    OrderIsPrime(S);
    HashToGroupValid(S, pw);
    MulSame(S.ristretto, q, r, HashToGroup(S, pw));
    ModUnique(q, 0, q, Order(S));
    ModUnique(r, 0, r, Order(S));
  }

  lemma BaseMultiple(G: Group, a: int, b: int)
    requires IsGroup(G)
    ensures G.mul(a, G.mul(b, G.base)) == G.mul(a * b, G.base)
  {
    assert MulLaw(G, a, b, G.base);
  }

  /** w / b, which times b is w. */
  lemma Ratio(w: int, b: int, p: int) returns (q: int)
    requires IsPrime(p) && b % p != 0 && w % p != 0
    ensures (q * b) % p == w % p && 0 < q < p
  {
    var i := EuclidInverse(b, p);
    InverseWorks(b, p);
    hide EuclidInverse;
    q := (w * i) % p;
    ModSelf(w * i, p);
    Cong(w * i, q, b, b, p);
    ModUnique(1, 0, 1, p);
    CongMul(w, b * i, 1, p);
    assert (w * i) * b == w * (b * i);
    ModUnique(0, 0, 0, p);
    NothingTimes(q, b);
  }

  lemma NothingTimes(q: int, b: int)
    ensures q == 0 ==> q * b == 0
  {
  }

  /** A collision of the truncated hash: two inputs whose SHA-512 begins with the same 32 bytes. */
  ghost predicate Coincide(S: Suite, x: Bytes, y: Bytes)
  {
    x != y && |S.sha512(x)| == |S.sha512(y)| == 64 && S.sha512(x)[..32] == S.sha512(y)[..32]
  }

  /** What is kept of a digest is its first half, so two inputs agree in it by being equal or colliding. */
  lemma DigestsAgree(S: Suite, x: Bytes, y: Bytes)
    requires IsSuite(S)
    ensures |S.sha512(x)| == 64 && Digest32(S, x) == S.sha512(x)[..32]
    ensures Digest32(S, x) == Digest32(S, y) <==> x == y || Coincide(S, x, y)
  {
    assert HashLaw(S, x) && HashLaw(S, y);
  }

  lemma SelfCollision(S: Suite, x: Bytes, y: Bytes)
    ensures Coincide(S, x, y) ==> x != y
  {
  }

  /** Two PRF values are equal for equal password and point, and otherwise by a collision. */
  lemma OutputsAgree(S: Suite, pw: Bytes, v: Bytes, pw': Bytes, v': Bytes)
    requires IsSuite(S) && |v| == |v'|
    ensures Finalize(S, pw, v) == Finalize(S, pw', v')
            <==> (pw == pw' && v == v') || Coincide(S, OutputInput(pw, v), OutputInput(pw', v'))
  {
    hide IsSuite, Digest32, OutputInput, Coincide;
    OutputInputOfPoints(pw, v, pw', v');
    DigestsAgree(S, OutputInput(pw, v), OutputInput(pw', v'));
    SelfCollision(S, OutputInput(pw, v), OutputInput(pw', v'));
  }

  /** Two keys of one node are equal for equal PRF values, and otherwise by a collision. */
  lemma ServerKeysEqual(S: Suite, h: Bytes, h': Bytes, id: int)
    requires IsSuite(S)
    ensures DeriveServerKey(S, h, id) == DeriveServerKey(S, h', id)
            <==> h == h' || Coincide(S, ServerInput(h, id), ServerInput(h', id))
  {
    hide IsSuite, Digest32, ServerInput, Coincide;
    ServerInputExact(h, id, h', id);
    DigestsAgree(S, ServerInput(h, id), ServerInput(h', id));
    SelfCollision(S, ServerInput(h, id), ServerInput(h', id));
  }

  lemma Prefixes()
    ensures |GroupPrefix()| == |OutputPrefix()| == 14 && |ServerPrefix()| == 19
    ensures GroupPrefix()[13] == 50 && OutputPrefix()[13] == 49 && ServerPrefix()[13] == 45
  {
    hide Utf8.Encode;
    var g, o, s := "PASTA-TOPRF-H2", "PASTA-TOPRF-H1", "PASTA-TOPRF-H-PRIME";
    Utf8.EncodeAscii(g);
    Utf8.EncodeAscii(o);
    Utf8.EncodeAscii(s);
    assert g[13] == '2' && o[13] == '1' && s[13] == '-';
  }

  /** No input of one hash is an input of another. */
  lemma HashesApart(pw: Bytes, pw': Bytes, v: Bytes, h: Bytes, id: int)
    ensures GroupInput(pw) != OutputInput(pw', v)
    ensures GroupInput(pw) != ServerInput(h, id)
    ensures OutputInput(pw', v) != ServerInput(h, id)
  {
    Prefixes();
    hide GroupPrefix, OutputPrefix, ServerPrefix, U16, U64;
    assert GroupInput(pw)[13] == 50;
    assert OutputInput(pw', v)[13] == 49;
    assert ServerInput(h, id)[13] == 45;
  }

  function IdOf(p: Partial): int { p.id }

  function PartialIds(partials: seq<Partial>): seq<int> { Map(IdOf, partials) }

  /** The sum of Lambda times the partial points. */
  function Interpolated(G: Group, ids: seq<int>, partials: seq<Partial>): Bytes
    requires G.order > 0
  {
    if partials == [] then G.zero
    else G.add(Interpolated(G, ids, Front(partials)),
               G.mul(Lambda(ids, Last(partials).id, G.order), Last(partials).point))
  }

  /** What unblinding gives: a refusal, or the interpolated point divided by r. */
  ghost function Unblinded(S: Suite, r: int, partials: seq<Partial>): Result<Bytes>
    requires S.ristretto.order > 0
  {
    var G, ids := S.ristretto, PartialIds(partials);
    if partials == [] then Err(NoPartials)
    else if !Invertible(ids, |ids|, G.order) || r % G.order == 0 then Err(ZeroHasNoInverse)
    else Ok(G.mul(EuclidInverse(r, G.order), Interpolated(G, ids, partials)))
  }

  method Unblind(S: Suite, r: int, partials: seq<Partial>) returns (v: Result<Bytes>)
    requires IsPrime(S.ristretto.order)
    ensures v == Unblinded(S, r, partials)
  {
    if |partials| == 0 {
      return Err(NoPartials);
    }
    var G, ids := S.ristretto, PartialIds(partials);
    assert Invertible(ids, 0, G.order);
    hide Lambda, Invertible, Singular, IsPrime;
    var combined := G.zero;
    for i := 0 to |partials|
      invariant Invertible(ids, i, G.order)
      invariant combined == Interpolated(G, ids, partials[..i])
    {
      var lambda := LagrangeCoeff(ids, partials[i].id, G.order);
      InvertibleStep(ids, i, G.order);
      if lambda.Err? {
        return Err(lambda.error);
      }
      PrefixStep(partials, i);
      combined := G.add(combined, G.mul(lambda.value, partials[i].point));
    }
    assert partials[..|partials|] == partials;
    var rInv := Invert(r, G.order);
    if rInv.Err? {
      return Err(rInv.error);
    }
    return Ok(G.mul(rInv.value, combined));
  }

  // ---- Independence of quorum and blinding -------------------------------------------

  /** The partials are the answers of the holders of the given shares to the blinded point. */
  ghost predicate AnswersTo(S: Suite, partials: seq<Partial>, shares: seq<Share>, blinded: Bytes)
  {
    |partials| == |shares| &&
    forall i :: 0 <= i < |shares| ==> partials[i] == Partial(shares[i].id, Evaluate(S, shares[i], blinded))
  }

  lemma {:induction false} InterpolatedIsMultiple(S: Suite, ids: seq<int>, partials: seq<Partial>, shares: seq<Share>,
                                                  x: Bytes)
    requires IsGroup(S.ristretto) && S.ristretto.valid(x) && AnswersTo(S, partials, shares, x)
    ensures Interpolated(S.ristretto, ids, partials) == S.ristretto.mul(Weighted(ids, shares, S.ristretto.order), x)
  {
    hide Lambda;
    var G := S.ristretto;
    if shares == [] {
      assert UnitLaw(G, x);
    } else {
      var s := Last(shares);
      InterpolatedIsMultiple(S, ids, Front(partials), Front(shares), x);
      var l := Lambda(ids, s.id, G.order);
      assert MulLaw(G, l, s.value, x);
      assert MulLaw(G, Weighted(ids, Front(shares), G.order), l * s.value, x);
    }
  }

  /** Unblinding gives k times the hashed password when the shares interpolate to k. */
  lemma UnblindGives(S: Suite, r: int, partials: seq<Partial>, shares: seq<Share>, k: int, password: Bytes)
    requires IsSuite(S) && r % Order(S) != 0 && shares != []
    requires Invertible(Ids(shares), |shares|, Order(S))
             && Weighted(Ids(shares), shares, Order(S)) % Order(S) == k % Order(S)
    requires AnswersTo(S, partials, shares, Blind(S, password, r))
    ensures Unblinded(S, r, partials) == Ok(S.ristretto.mul(k, HashToGroup(S, password)))
  {
    hide HashToGroup, Lambda, EuclidInverse, Invertible;
    var G, p, x := S.ristretto, Order(S), HashToGroup(S, password);
    var ids := Ids(shares);
    assert PartialIds(partials) == ids;
    HashToGroupValid(S, password);
    MulValid(G, r, x);
    InterpolatedIsMultiple(S, ids, partials, shares, Blind(S, password, r));
    Unwind(G, EuclidInverse(r, p), Weighted(ids, shares, p), r, k, x);
  }

  /** For every non-zero blinding and every quorum, unblinding gives k times the hashed password. */
  lemma UnblindRecovers(S: Suite, r: int, partials: seq<Partial>, shares: seq<Share>, cs: seq<int>, password: Bytes)
    requires IsSuite(S) && r % Order(S) != 0
    requires ValidIds(Ids(shares), Order(S)) && 0 < |cs| <= |shares| && OnPolynomial(shares, cs, Order(S))
    requires AnswersTo(S, partials, shares, Blind(S, password, r))
    ensures Unblinded(S, r, partials) == Ok(S.ristretto.mul(cs[0], HashToGroup(S, password)))
  {
    hide HashToGroup, Unblinded, AnswersTo, Invertible, Weighted, IsGroup, IsSuite;
    OrderIsPrime(S);
    AnyQuorumReconstructs(shares, cs, Order(S));
    UnblindGives(S, r, partials, shares, cs[0], password);
  }

  /** Dividing by r after multiplying by r leaves the interpolated scalar. */
  lemma Unwind(G: Group, i: int, w: int, r: int, k: int, x: Bytes)
    requires IsGroup(G) && G.valid(x) && r % G.order != 0 && i == EuclidInverse(r, G.order)
    requires w % G.order == k % G.order
    ensures G.mul(i, G.mul(w, G.mul(r, x))) == G.mul(k, x)
  {
    var p := G.order;
    InverseWorks(r, p);
    hide EuclidInverse;
    assert MulLaw(G, w, r, x);
    assert MulLaw(G, i, w * r, x);
    ModUnique(1, 0, 1, p);
    Cong(r * i, 1, w, k, p);
    assert i * (w * r) == (r * i) * w by {
      SwapFactors(i, w, r);
      assert w * (i * r) == (r * i) * w;
    }
    MulCong(G, i * (w * r), k, x);
  }

  /** The PRF value of a password under the key k, which no quorum or blinding appears in. */
  function Prf(S: Suite, password: Bytes, k: int): Bytes
  {
    Finalize(S, password, S.ristretto.mul(k, HashToGroup(S, password)))
  }

  /** What the dealer stores for node id is what a client derives with any quorum and any blinding. */
  lemma ServerKeysAgree(S: Suite, r: int, r': int, partials: seq<Partial>, partials': seq<Partial>,
                        shares: seq<Share>, shares': seq<Share>, cs: seq<int>, password: Bytes, id: int)
    requires IsSuite(S) && r % Order(S) != 0 && r' % Order(S) != 0
    requires ValidIds(Ids(shares), Order(S)) && 0 < |cs| <= |shares| && OnPolynomial(shares, cs, Order(S))
    requires ValidIds(Ids(shares'), Order(S)) && |cs| <= |shares'| && OnPolynomial(shares', cs, Order(S))
    requires AnswersTo(S, partials, shares, Blind(S, password, r))
    requires AnswersTo(S, partials', shares', Blind(S, password, r'))
    ensures Unblinded(S, r, partials).Ok? && Unblinded(S, r', partials').Ok?
    ensures DeriveServerKey(S, Finalize(S, password, Unblinded(S, r, partials).value), id)
            == DeriveServerKey(S, Finalize(S, password, Unblinded(S, r', partials').value), id)
            == DeriveServerKey(S, Prf(S, password, cs[0]), id)
  {
    UnblindRecovers(S, r, partials, shares, cs, password);
    UnblindRecovers(S, r', partials', shares', cs, password);
  }

  /** A client-specific key, shared among the servers. */
  method GenerateToprfKey(masterKey: int, total: int, threshold: int, random: nat -> int, p: int)
    returns (r: Result<seq<Share>>)
    requires p > 0
    ensures r.Ok? <==> 1 <= threshold <= total
    ensures r.Ok? ==> r.value == SharesOf([masterKey] + Draws(random, threshold - 1), total, p)
  {
    r := SplitSecret(masterKey, threshold, total, random, p);
  }

  /**
   * Registration, as dealer and test set-up do it: blind, evaluate on the first shares, unblind, hash.
   * It fails exactly on a zero blinding or when two of the first ids are congruent.
   */
  method RegistrationPrf(S: Suite, password: Bytes, shares: seq<Share>, threshold: nat, r: int, ghost cs: seq<int>)
    returns (h: Result<Bytes>)
    requires IsSuite(S) && |cs| == threshold && 1 <= threshold <= |shares|
    requires shares == SharesOf(cs, |shares|, Order(S))
    ensures h == if r % Order(S) == 0 || threshold > Order(S) then Err(ZeroHasNoInverse)
            else Ok(Prf(S, password, cs[0]))
  {
    hide HashToGroup, Finalize, Lambda, EuclidInverse;
    var blinded := Blind(S, password, r);
    var first := shares[..threshold];
    var partials := seq(threshold,
                        i requires 0 <= i < threshold => Partial(first[i].id, Evaluate(S, first[i], blinded)));
    assert AnswersTo(S, partials, first, blinded);
    assert PartialIds(partials) == Ids(first);
    FirstUnblinds(S, first, cs, |shares|, r, partials, password);
    hide Unblinded;
    var v := Unblind(S, r, partials);
    if v.Err? {
      return Err(v.error);
    }
    return Ok(Finalize(S, password, v.value));
  }

  lemma FirstUnblinds(S: Suite, first: seq<Share>, cs: seq<int>, total: nat, r: int, partials: seq<Partial>,
                      password: Bytes)
    requires IsSuite(S) && 1 <= |cs| == |first| <= total && first == SharesOf(cs, total, Order(S))[..|cs|]
    requires AnswersTo(S, partials, first, Blind(S, password, r))
    ensures S.ristretto.order > 0
    ensures Unblinded(S, r, partials)
            == if r % Order(S) == 0 || |cs| > Order(S) then Err(ZeroHasNoInverse)
               else Ok(S.ristretto.mul(cs[0], HashToGroup(S, password)))
  {
    hide IsSuite, HashToGroup, Eval, Blind, Evaluate;
    OrderIsPrime(S);
    FirstShares(cs, total, |cs|, Order(S));
    assert PartialIds(partials) == Ids(first);
    if |cs| > Order(S) {
      TooManyIds(Ids(first), Order(S));
    } else if r % Order(S) != 0 {
      if |cs| == Order(S) {
        FullQuorum(first, cs, Order(S));
      } else {
        AnyQuorumReconstructs(first, cs, Order(S));
      }
      UnblindGives(S, r, partials, first, cs[0], password);
    }
  }

  lemma FirstShares(cs: seq<int>, total: nat, n: nat, p: int)
    requires n <= total && p > 0
    ensures var first := SharesOf(cs, total, p)[..n];
            CountedIds(Ids(first)) && OnPolynomial(first, cs, p) && (n < p ==> ValidIds(Ids(first), p))
  {
    hide Eval;
    var first := SharesOf(cs, total, p)[..n];
    forall i | 0 <= i < n
      ensures first[i].id == i + 1 && first[i].value % p == Eval(cs, i + 1) % p
    {
      ModSelf(Eval(cs, i + 1), p);
    }
  }
}
