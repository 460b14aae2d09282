/**
 * What the FROST round promises: the shares of any large enough quorum aggregate to a signature that
 * meets the Ed25519 equation for the dealt key, in whatever order the parts are put together.
 */
module Signing {
  import opened Arith
  import opened Seqs
  import opened Bytes
  import opened Interpolation
  import opened Suites
  import opened Frost

  /** One member of a signing quorum: its id, the nonces it drew, and its share of the key. */
  datatype Signer = Signer(id: int, nonces: Nonces, share: int)

  function SignerIds(q: seq<Signer>): (r: seq<int>)
    ensures |r| == |q| && forall i :: 0 <= i < |q| ==> r[i] == q[i].id
  {
    seq(|q|, i requires 0 <= i < |q| => q[i].id)
  }

  /** What a signer publishes in round one. */
  function Published(S: Suite, s: Signer): Commitment
  {
    Commitment(s.id, S.ed.mul(s.nonces.d, S.ed.base), S.ed.mul(s.nonces.e, S.ed.base))
  }

  function PublishedAll(S: Suite, q: seq<Signer>): (r: seq<Commitment>)
    ensures |r| == |q| && forall i :: 0 <= i < |q| ==> r[i] == Published(S, q[i])
  {
    seq(|q|, i requires 0 <= i < |q| => Published(S, q[i]))
  }

  /** A quorum of distinct ids whose key shares lie on the polynomial with coefficients cs. */
  ghost predicate Quorum(S: Suite, q: seq<Signer>, cs: seq<int>)
    requires Order(S) > 0
  {
    && ValidIds(SignerIds(q), Order(S))
    && 0 < |cs| <= |q|
    && forall i :: 0 <= i < |q| ==> q[i].share % Order(S) == Eval(cs, q[i].id) % Order(S)
  }

  /** The share that signer s answers in round two. */
  function ShareOf(S: Suite, s: Signer, msg: Bytes, commitments: seq<Commitment>, publicKey: Bytes,
                   participants: seq<int>): Result<int>
    requires Order(S) > 0
  {
    SignatureShare(S, s.id, s.nonces, s.share, msg, commitments, publicKey, participants)
  }

  // ---- The scalars behind the points -------------------------------------------------

  /** d + rho e: the discrete logarithm of a signer's part of the group commitment. */
  function NonceScalar(S: Suite, s: Signer, msg: Bytes, commitments: seq<Commitment>): int
    requires Order(S) > 0
  {
    s.nonces.d + BindingFactor(S, s.id, msg, commitments) * s.nonces.e
  }

  function NonceScalars(S: Suite, q: seq<Signer>, msg: Bytes, commitments: seq<Commitment>): (r: seq<int>)
    requires Order(S) > 0
    ensures |r| == |q| && forall i :: 0 <= i < |q| ==> r[i] == NonceScalar(S, q[i], msg, commitments)
  {
    seq(|q|, i requires 0 <= i < |q| => NonceScalar(S, q[i], msg, commitments))
  }

  lemma PartIsMultiple(S: Suite, s: Signer, msg: Bytes, commitments: seq<Commitment>)
    requires IsGroup(S.ed)
    ensures S.ed.valid(Published(S, s).D) && S.ed.valid(Published(S, s).E)
    ensures Part(S, msg, commitments)(Published(S, s)) == S.ed.mul(NonceScalar(S, s, msg, commitments), S.ed.base)
  {
    GroupFacts(S.ed, 0, 0);
    hide IsGroup, BindingFactor;
    var rho := BindingFactor(S, s.id, msg, commitments);
    var d, e := s.nonces.d, s.nonces.e;
    GroupFacts(S.ed, d, rho * e);
    GroupFacts(S.ed, rho, e);
    GroupFacts(S.ed, e, e);
  }

  lemma GroupFacts(G: Group, a: int, b: int)
    requires IsGroup(G)
    ensures G.valid(G.base) && MulLaw(G, a, b, G.base) && G.order > 0
  {
  }

  /** The group commitment of a quorum is the base point times the sum of the nonce scalars. */
  lemma CommitmentIsMultiple(S: Suite, q: seq<Signer>, msg: Bytes, commitments: seq<Commitment>)
    requires IsGroup(S.ed) && multiset(commitments) == multiset(PublishedAll(S, q))
    ensures GroupCommitment(S, msg, commitments)
            == Ok(S.ed.mul(Sum(NonceScalars(S, q, msg, commitments)), S.ed.base))
  {
    var published := PublishedAll(S, q);
    var f := Part(S, msg, commitments);
    var pts := Map(f, published);
    forall i | 0 <= i < |q|
      ensures S.ed.valid(published[i].D) && S.ed.valid(published[i].E)
      ensures pts[i] == S.ed.mul(NonceScalars(S, q, msg, commitments)[i], S.ed.base)
      ensures S.ed.valid(pts[i])
    {
      PartIsMultiple(S, q[i], msg, commitments);
      MulValid(S.ed, NonceScalar(S, q[i], msg, commitments), S.ed.base);
    }
    PermutationPointsOk(S, published, commitments);
    MapPermutation(f, published, commitments);
    PointSumPermutation(S.ed, pts, Parts(S, msg, commitments));
    SumOfMultiples(S.ed, NonceScalars(S, q, msg, commitments), S.ed.base, pts);
  }

  lemma PermutationPointsOk(S: Suite, a: seq<Commitment>, b: seq<Commitment>)
    requires multiset(a) == multiset(b) && PointsOk(S, a)
    ensures PointsOk(S, b)
  {
    forall i | 0 <= i < |b|
      ensures S.ed.valid(b[i].D) && S.ed.valid(b[i].E)
    {
      assert b[i] in multiset(b);
      assert b[i] in a;
    }
  }

  // ---- The sum of the shares ---------------------------------------------------------

  /** The sum of lambda * share over the first members of the quorum. */
  function KeyPart(ids: seq<int>, q: seq<Signer>, p: int): int
    requires p > 0
  {
    if q == [] then 0
    else KeyPart(ids, Front(q), p) + LagrangeValue(Last(q).id, ids, p) * Last(q).share
  }

  /** A signer's answer in terms of its nonce scalar k, Lagrange coefficient l and key share s. */
  function ShareValue(k: int, l: int, s: int, c: int, p: int): int
    requires p > 0
  {
    (k + l * s * c) % p
  }

  /** Every signer's answer, unreduced parts kept apart: nonce scalar plus c times the key part. */
  lemma {:induction false} SumOfShares(ks: seq<int>, zs: seq<int>, ids: seq<int>, q: seq<Signer>, c: int, p: int)
    requires p > 0 && |zs| == |ks| == |q|
    requires forall i :: 0 <= i < |q| ==> zs[i] == ShareValue(ks[i], LagrangeValue(q[i].id, ids, p), q[i].share, c, p)
    ensures Sum(zs) % p == (Sum(ks) + c * KeyPart(ids, q, p)) % p
  {
    hide LagrangeValue, ShareValue;
    if q == [] {
      assert c * 0 == 0;
    } else {
      SumOfShares(Front(ks), Front(zs), ids, Front(q), c, p);
      ShareStep(Sum(Front(zs)), Sum(Front(ks)), KeyPart(ids, Front(q), p), Last(ks), LagrangeValue(Last(q).id, ids, p),
                Last(q).share, c, Last(zs), Sum(zs), Sum(ks), KeyPart(ids, q, p), p);
    }
  }

  lemma ShareStep(z: int, k: int, w: int, k': int, l: int, s: int, c: int, z': int, zs: int, ks: int, ws: int, p: int)
    requires p > 0 && z % p == (k + c * w) % p && z' == ShareValue(k', l, s, c, p)
    requires zs == z + z' && ks == k + k' && ws == w + l * s
    ensures zs % p == (ks + c * ws) % p
  {
    var t := l * s;
    ModSelf(k' + t * c, p);
    Cong(z, k + c * w, z', k' + t * c, p);
    MulAdd(c, w, t);
    assert t * c == c * t;
  }

  /** The Lagrange-weighted key shares interpolate the dealt secret. */
  lemma KeyPartIsSecret(S: Suite, q: seq<Signer>, cs: seq<int>, ids: seq<int>)
    requires IsPrime(Order(S)) && Quorum(S, q, cs) && multiset(ids) == multiset(SignerIds(q))
    ensures KeyPart(ids, q, Order(S)) % Order(S) == cs[0] % Order(S)
  {
    var p := Order(S);
    var own := SignerIds(q);
    DistinctPermutation(own, ids);
    PermutationAll((j: int) => 0 < j < p, own, ids);
    assert ValidIds(ids, p);
    KeyPartIsPolySum(ids, q, cs, p);
    PolySumSameLambda(ids, own, own, cs, p);
    InterpolatesAtZero(own, cs, p);
    assert Eval(cs, 0) == cs[0] + 0 * Eval(cs[1..], 0);
  }

  lemma {:induction false} KeyPartIsPolySum(ids: seq<int>, q: seq<Signer>, cs: seq<int>, p: int)
    requires IsPrime(p) && ValidIds(ids, p)
    requires forall i :: 0 <= i < |q| ==> 0 < q[i].id < p && q[i].share % p == Eval(cs, q[i].id) % p
    ensures KeyPart(ids, q, p) % p == PolySum(ids, SignerIds(q), cs, p) % p
  {
    hide Lambda, LagrangeValue, Eval, ValidIds;
    if q != [] {
      var s := Last(q);
      KeyPartIsPolySum(ids, Front(q), cs, p);
      assert Front(SignerIds(q)) == SignerIds(Front(q));
      LagrangeRoutinesAgree(s.id, ids, p);
      var l := Lambda(ids, s.id, p);
      CongMul(l, s.share, Eval(cs, s.id), p);
      Cong(KeyPart(ids, Front(q), p), PolySum(ids, SignerIds(Front(q)), cs, p), l * s.share, l * Eval(cs, s.id), p);
    }
  }

  // ---- The main theorem --------------------------------------------------------------

  /** All shares answered in one round over one message, one commitment list, one participant list. */
  ghost predicate Answers(S: Suite, q: seq<Signer>, zs: seq<int>, msg: Bytes, commitments: seq<Commitment>,
                          publicKey: Bytes, participants: seq<int>)
    requires Order(S) > 0
  {
    |zs| == |q| &&
    forall i :: 0 <= i < |q| ==> ShareOf(S, q[i], msg, commitments, publicKey, participants) == Ok(zs[i])
  }

  lemma ShareShape(S: Suite, s: Signer, msg: Bytes, commitments: seq<Commitment>, R: Bytes, publicKey: Bytes,
                   participants: seq<int>)
    requires Order(S) > 0 && GroupCommitment(S, msg, commitments) == Ok(R)
    ensures var c := Challenge(S, R, publicKey, msg);
            ShareOf(S, s, msg, commitments, publicKey, participants)
            == Ok(ShareValue(NonceScalar(S, s, msg, commitments), LagrangeValue(s.id, participants, Order(S)), s.share,
                             c, Order(S)))
  {
    hide Challenge, BindingFactor, LagrangeValue;
  }

  lemma AnswersSum(S: Suite, q: seq<Signer>, cs: seq<int>, zs: seq<int>, msg: Bytes, commitments: seq<Commitment>,
                   R: Bytes, publicKey: Bytes, participants: seq<int>)
    requires IsPrime(Order(S)) && Quorum(S, q, cs)
    requires multiset(participants) == multiset(SignerIds(q))
    requires GroupCommitment(S, msg, commitments) == Ok(R)
    requires Answers(S, q, zs, msg, commitments, publicKey, participants)
    ensures Sum(zs) % Order(S)
            == (Sum(NonceScalars(S, q, msg, commitments)) + Challenge(S, R, publicKey, msg) * cs[0]) % Order(S)
  {
    assert 0 < |cs|;
    hide Quorum, GroupCommitment, NonceScalar, LagrangeValue, ShareOf, Challenge, ShareValue, KeyPart;
    var p, c := Order(S), Challenge(S, R, publicKey, msg);
    var ks := NonceScalars(S, q, msg, commitments);
    forall i | 0 <= i < |q|
      ensures zs[i] == ShareValue(ks[i], LagrangeValue(q[i].id, participants, p), q[i].share, c, p)
    {
      ShareShape(S, q[i], msg, commitments, R, publicKey, participants);
    }
    SumOfShares(ks, zs, participants, q, c, p);
    KeyPartIsSecret(S, q, cs, participants);
    SecretStep(Sum(ks), c, KeyPart(participants, q, p), cs[0], p);
  }

  lemma SecretStep(k: int, c: int, w: int, s: int, p: int)
    requires p > 0 && w % p == s % p
    ensures (k + c * w) % p == (k + c * s) % p
  {
    CongMul(c, w, s, p);
    Cong(k, k, c * w, c * s, p);
  }

  /**
   * Aggregating the answers of a quorum gives a signature that verifies on the round's message under
   * the dealt key, whatever the order of commitments, participants and answers.
   */
  lemma AggregateVerifies(S: Suite, q: seq<Signer>, cs: seq<int>, zs: seq<int>, zs': seq<int>, msg: Bytes,
                          commitments: seq<Commitment>, participants: seq<int>)
    requires IsSuite(S) && Quorum(S, q, cs)
    requires multiset(commitments) == multiset(PublishedAll(S, q))
    requires multiset(participants) == multiset(SignerIds(q))
    requires Answers(S, q, zs, msg, commitments, S.ed.mul(cs[0], S.ed.base), participants)
    requires multiset(zs) == multiset(zs')
    ensures var R := GroupCommitment(S, msg, commitments);
            R.Ok? && |R.value| == 32
            && Verifies(S, Aggregate(R.value, zs', Order(S)), msg, S.ed.mul(cs[0], S.ed.base))
  {
    assert 0 < |cs|;
    hide Quorum, Answers, BindingFactor, GroupCommitment, Challenge;
    var G, p := S.ed, Order(S);
    var k := Sum(NonceScalars(S, q, msg, commitments));
    var R, Y := G.mul(k, G.base), G.mul(cs[0], G.base);
    CommitmentIsMultiple(S, q, msg, commitments);
    SumPermutation(zs, zs');
    AnswersSum(S, q, cs, zs, msg, commitments, R, Y, participants);
    MulValid(G, k, G.base);
    assert UnitLaw(G, R);
    SignatureEquation(S, R, Y, k, Challenge(S, R, Y, msg), cs[0], Sum(zs'), msg);
  }

  lemma SignatureEquation(S: Suite, R: Bytes, Y: Bytes, k: int, c: int, s: int, z: int, msg: Bytes)
    requires IsSuite(S) && R == S.ed.mul(k, S.ed.base) && Y == S.ed.mul(s, S.ed.base) && |R| == 32
    requires c == Challenge(S, R, Y, msg) && z % Order(S) == (k + c * s) % Order(S)
    ensures Verifies(S, R + LeBytes(z % Order(S), 32), msg, Y)
  {
    var G, p := S.ed, Order(S);
    var sig := R + LeBytes(z % p, 32);
    assert sig[..32] == R && sig[32..] == LeBytes(z % p, 32);
    ScalarFits(z, p);
    MulReduce(G, z, G.base);
    MulCong(G, z, k + c * s, G.base);
    assert MulLaw(G, k, c * s, G.base);
    assert MulLaw(G, c, s, G.base);
    MulValid(G, k, G.base);
    MulValid(G, s, G.base);
    MulReduce(G, LeValue(S.sha512(R + Y + msg)), Y);
  }

  lemma ScalarFits(z: int, p: int)
    requires 0 < p <= Pow(256, 32)
    ensures LeValue(LeBytes(z % p, 32)) == z % p < p
  {
    LeValueOfBytes(z % p, 32);
  }

  // ---- Order of the parts ------------------------------------------------------------

  ghost predicate SortedById(s: seq<Commitment>)
  {
    forall i, j :: 0 <= i < j < |s| ==> s[i].nodeId <= s[j].nodeId
  }

  lemma IdsCompare()
    ensures TotalPreorder(IdLeq)
  {
    forall x: Commitment, y: Commitment, z: Commitment
      ensures Compares(IdLeq, x, y, z)
    {
    }
  }

  lemma SortByIdSorts(s: seq<Commitment>)
    ensures SortedById(SortById(s)) && multiset(SortById(s)) == multiset(s)
  {
    IdsCompare();
    SortBySorts(IdLeq, s);
    var r := SortById(s);
    hide SortById, SortBy;
    forall i, j | 0 <= i < j < |r|
      ensures r[i].nodeId <= r[j].nodeId
    {
      assert IdLeq(r[i], r[j]);
    }
  }

  function CommitmentIds(s: seq<Commitment>): (r: seq<int>)
    ensures |r| == |s| && forall i :: 0 <= i < |s| ==> r[i] == s[i].nodeId
  {
    seq(|s|, i requires 0 <= i < |s| => s[i].nodeId)
  }

  lemma SortedByIdUnique(a: seq<Commitment>, b: seq<Commitment>)
    requires SortedById(a) && SortedById(b) && multiset(a) == multiset(b) && Distinct(CommitmentIds(a))
    ensures a == b
  {
    IdsCompare();
    forall i, j | 0 <= i < |a| && 0 <= j < |a| && IdLeq(a[i], a[j]) && IdLeq(a[j], a[i])
      ensures a[i] == a[j]
    {
      assert CommitmentIds(a)[i] == CommitmentIds(a)[j];
      assert i < j || j < i || i == j;
    }
    SortedUnique(IdLeq, a, b);
  }

  /** With distinct ids neither the binding factors nor the group commitment depend on the order. */
  lemma OrderOfCommitments(S: Suite, nodeId: int, msg: Bytes, a: seq<Commitment>, b: seq<Commitment>)
    requires IsSuite(S) && multiset(a) == multiset(b) && Distinct(CommitmentIds(a))
    ensures BindingInput(nodeId, msg, a) == BindingInput(nodeId, msg, b)
    ensures BindingFactor(S, nodeId, msg, a) == BindingFactor(S, nodeId, msg, b)
    ensures GroupCommitment(S, msg, a) == GroupCommitment(S, msg, b)
  {
    SortByIdSorts(a);
    SortByIdSorts(b);
    DistinctIdsPermuted(a, SortById(a));
    SortedByIdUnique(SortById(a), SortById(b));
    SameParts(S, msg, a, b);
    if PointsOk(S, a) {
      PermutationPointsOk(S, a, b);
      MapPermutation(Part(S, msg, a), a, b);
      PartsValid(S, msg, a);
      PointSumPermutation(S.ed, Parts(S, msg, a), Map(Part(S, msg, a), b));
    } else if PointsOk(S, b) {
      PermutationPointsOk(S, b, a);
    }
  }

  lemma SameParts(S: Suite, msg: Bytes, a: seq<Commitment>, b: seq<Commitment>)
    requires Order(S) > 0 && SortById(a) == SortById(b)
    ensures Map(Part(S, msg, a), b) == Parts(S, msg, b)
  {
    forall i | 0 <= i < |b|
      ensures Part(S, msg, a)(b[i]) == Part(S, msg, b)(b[i])
    {
      assert BindingFactor(S, b[i].nodeId, msg, a) == BindingFactor(S, b[i].nodeId, msg, b);
    }
  }

  lemma PartsValid(S: Suite, msg: Bytes, a: seq<Commitment>)
    requires IsGroup(S.ed) && PointsOk(S, a)
    ensures AllValid(S.ed, Parts(S, msg, a))
  {
    forall i | 0 <= i < |a|
      ensures S.ed.valid(Parts(S, msg, a)[i])
    {
      var rho := BindingFactor(S, a[i].nodeId, msg, a);
      MulValid(S.ed, rho, a[i].E);
      AddValid(S.ed, a[i].D, S.ed.mul(rho, a[i].E));
    }
  }

  lemma DistinctIdsPermuted(a: seq<Commitment>, b: seq<Commitment>)
    requires multiset(a) == multiset(b) && Distinct(CommitmentIds(a))
    ensures Distinct(CommitmentIds(b))
  {
    var f := (c: Commitment) => c.nodeId;
    assert CommitmentIds(a) == Map(f, a) && CommitmentIds(b) == Map(f, b);
    MapPermutation(f, a, b);
    DistinctPermutation(CommitmentIds(a), CommitmentIds(b));
  }

  // ---- What the binding factor binds -------------------------------------------------

  /** A commitment as the hash input shows it: only the low byte of the id. */
  function Shown(c: Commitment): Commitment { c.(nodeId := c.nodeId % 256) }

  ghost predicate PointSized(s: seq<Commitment>)
  {
    forall i :: 0 <= i < |s| ==> |s[i].D| == 32 && |s[i].E| == 32
  }

  lemma {:induction false} CommitmentBytesLength(a: seq<Commitment>)
    requires PointSized(a)
    ensures |CommitmentBytes(a)| == 65 * |a|
  {
    if a != [] {
      CommitmentBytesLength(Front(a));
    }
  }

  /** One commitment as the hash input has it. */
  function Entry(c: Commitment): Bytes { [ToByte(c.nodeId)] + c.D + c.E }

  lemma BytesSnoc(a: seq<Commitment>)
    requires a != []
    ensures CommitmentBytes(a) == CommitmentBytes(Front(a)) + Entry(Last(a))
  {
    var f, i, x := CommitmentBytes(Front(a)), [ToByte(Last(a).nodeId)], Last(a);
    Regroup(f, i, x.D);
    Regroup(f, i + x.D, x.E);
  }

  lemma {:induction false} CommitmentBytesExact(a: seq<Commitment>, b: seq<Commitment>)
    requires |a| == |b| && PointSized(a) && PointSized(b)
    ensures CommitmentBytes(a) == CommitmentBytes(b) <==> Map(Shown, a) == Map(Shown, b)
  {
    if a != [] {
      var x, y := Last(a), Last(b);
      CommitmentBytesExact(Front(a), Front(b));
      CommitmentBytesLength(Front(a));
      CommitmentBytesLength(Front(b));
      BytesSnoc(a);
      BytesSnoc(b);
      MapSnoc(Shown, a);
      MapSnoc(Shown, b);
      EntryExact(x, y);
      hide CommitmentBytes, Map, Entry, Shown;
      if CommitmentBytes(a) == CommitmentBytes(b) {
        ConcatInjective(CommitmentBytes(Front(a)), Entry(x), CommitmentBytes(Front(b)), Entry(y));
      }
      if Map(Shown, a) == Map(Shown, b) {
        ConcatInjective(Map(Shown, Front(a)), [Shown(x)], Map(Shown, Front(b)), [Shown(y)]);
      }
    }
  }

  lemma EntryExact(x: Commitment, y: Commitment)
    requires |x.D| == |x.E| == |y.D| == |y.E| == 32
    ensures Entry(x) == Entry(y) <==> Shown(x) == Shown(y)
  {
    if Entry(x) == Entry(y) {
      ConcatInjective([ToByte(x.nodeId)] + x.D, x.E, [ToByte(y.nodeId)] + y.D, y.E);
      ConcatInjective([ToByte(x.nodeId)], x.D, [ToByte(y.nodeId)], y.D);
      assert [ToByte(x.nodeId)][0] == [ToByte(y.nodeId)][0];
    }
  }

  /**
   * For a fixed number of commitments the hash input determines the message, the low byte of the
   * signer's id, and the sorted commitments up to the low byte of their ids, and nothing more.
   */
  lemma BindingInputExact(i: int, j: int, m: Bytes, n: Bytes, a: seq<Commitment>, b: seq<Commitment>)
    requires |a| == |b| && PointSized(a) && PointSized(b)
    ensures BindingInput(i, m, a) == BindingInput(j, n, b)
            <==> i % 256 == j % 256 && m == n && Map(Shown, SortById(a)) == Map(Shown, SortById(b))
  {
    SortByIdSorts(a);
    SortByIdSorts(b);
    var s, t := SortById(a), SortById(b);
    SortedPointSized(a);
    SortedPointSized(b);
    assert |s| == |multiset(a)| == |a| && |t| == |multiset(b)| == |b|;
    CommitmentBytesExact(s, t);
    CommitmentBytesLength(s);
    CommitmentBytesLength(t);
    if BindingInput(i, m, a) == BindingInput(j, n, b) {
      assert |m| == |n|;
      ConcatInjective([ToByte(i)] + m, CommitmentBytes(s), [ToByte(j)] + n, CommitmentBytes(t));
      ConcatInjective([ToByte(i)], m, [ToByte(j)], n);
      assert [ToByte(i)][0] == [ToByte(j)][0];
    }
  }

  lemma SortedPointSized(a: seq<Commitment>)
    requires PointSized(a)
    ensures PointSized(SortById(a))
  {
    SortByIdSorts(a);
    var s := SortById(a);
    forall i | 0 <= i < |s|
      ensures |s[i].D| == 32 && |s[i].E| == 32
    {
      assert s[i] in multiset(s);
      assert s[i] in a;
    }
  }

  /** With ids below 256 the hash input is injective in signer, message and commitment set. */
  lemma BindingInputInjective(i: int, j: int, m: Bytes, n: Bytes, a: seq<Commitment>, b: seq<Commitment>)
    requires |a| == |b| && PointSized(a) && PointSized(b) && 0 <= i < 256 && 0 <= j < 256
    requires forall k :: 0 <= k < |a| ==> 0 <= a[k].nodeId < 256
    requires forall k :: 0 <= k < |b| ==> 0 <= b[k].nodeId < 256
    requires BindingInput(i, m, a) == BindingInput(j, n, b)
    ensures i == j && m == n && multiset(a) == multiset(b)
  {
    hide BindingInput, SortedById, SortById, PointSized;
    BindingInputExact(i, j, m, n, a, b);
    ModUnique(i, 0, i, 256);
    ModUnique(j, 0, j, 256);
    SortByIdSorts(a);
    SortByIdSorts(b);
    ShownIsSame(a);
    ShownIsSame(b);
  }

  lemma ShownIsSame(a: seq<Commitment>)
    requires forall k :: 0 <= k < |a| ==> 0 <= a[k].nodeId < 256
    ensures Map(Shown, SortById(a)) == SortById(a)
  {
    hide SortedById, SortById;
    SortByIdSorts(a);
    var s := SortById(a);
    forall k | 0 <= k < |s|
      ensures Shown(s[k]) == s[k]
    {
      assert s[k] in multiset(s);
      assert s[k] in a;
      ShownSmall(s[k]);
    }
  }

  lemma ShownSmall(c: Commitment)
    requires 0 <= c.nodeId < 256
    ensures Shown(c) == c
  {
    ModUnique(c.nodeId, 0, c.nodeId, 256);
  }

  /** From 256 ids on it is not: nodes 1 and 257 hash to the same binding factor. */
  lemma BindingInputCollides(msg: Bytes, commitments: seq<Commitment>)
    ensures BindingInput(1, msg, commitments) == BindingInput(257, msg, commitments)
  {
  }
}
