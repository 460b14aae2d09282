/**
 * The whole way: nodes started from the files of one dealer run, a user of theirs signing on with the
 * registered password, and the assertion buying tokens with proofs by the key it names.
 */
module EndToEnd {
  import opened Arith
  import opened Seqs
  import opened Bytes
  import opened Suites
  import opened Frost
  import opened Signing
  import opened Tokens
  import opened Node
  import opened Gateway
  import opened Quorums
  import opened Deployment
  import opened Acceptance
  import opened Asking
  import opened Provisioning
  import opened SignOnFlow
  import opened TokenFlow
  import Base64Url
  import Client
  import Dealer
  import Dpop

  // ---- Rounds of nodes that are there ------------------------------------------------

  /** Every asked node is there, and its commit call does not fail. */
  ghost predicate Reachable(peers: map<int, Peer>, ids: seq<int>, draws: nat -> Option<Nonces>)
  {
    forall i :: 0 <= i < |ids| ==> ids[i] in peers && draws(i).Some?
  }

  lemma {:induction false} NoFailures(settled: seq<Outcome>)
    requires forall i :: 0 <= i < |settled| ==> settled[i].Committed?
    ensures FailuresIn(settled) == [] && |CommitmentsIn(settled)| == |settled|
  {
    if settled != [] {
      NoFailures(Front(settled));
    }
  }

  /** When enough nodes are asked and all of them are reachable, there is a round with exactly these. */
  lemma AllCommit(S: Suite, peers: map<int, Peer>, roundId: string, ids: seq<int>, draws: nat -> Option<Nonces>,
                  explicit: bool, threshold: int)
    requires Reachable(peers, ids, draws) && |ids| >= threshold
    ensures Collect(CommitAll(S, peers, roundId, ids, draws).1, explicit, threshold).Ok?
  {
    var settled := CommitAll(S, peers, roundId, ids, draws).1;
    OutcomesInOrder(S, peers, roundId, ids, draws);
    hide CommitAll, Collect, CommitmentsIn, FailuresIn;
    assert |settled| == |ids|;
    NoFailures(settled);
    CollectExact(settled, explicit, threshold);
  }

  // ---- Signing on at dealt nodes -----------------------------------------------------

  /** The attempt is made at nodes of this dealing, by its user j, with enough reachable nodes in time. */
  ghost predicate AtDealtNodes(S: Suite, o: Dealer.Options, e: Dealer.Entropy, issuer: string, j: nat, t: Attempt)
    requires IsSuite(S) && j < |o.users|
  {
    OrderIsPrime(S);
    && Dealer.CheckOptions(o).None? && o.total < Order(S) && StartedFrom(S, o, e, issuer, t.peers)
    && t.cs == Dealer.KeyPolynomial(o, e) && t.a == AccountOf(o, e, j) && t.o.username == t.a.username
    && t.issuer == Base64Url.StripEnd(issuer, '/') && t.keyId == DEFAULT_KEY_ID
    && t.threshold >= o.threshold && |AskedNodes(t)| >= t.threshold && Distinct(AskedNodes(t))
    && Reachable(t.peers, AskedNodes(t), t.draws) && ClocksAgree(t.clocks, |AskedNodes(t)|, t.d.now)
    && t.d.r % Order(S) != 0
  }

  lemma DealtCanRelay(S: Suite, o: Dealer.Options, e: Dealer.Entropy, issuer: string, j: nat, t: Attempt)
    requires IsSuite(S) && j < |o.users| && AtDealtNodes(S, o, e, issuer, j, t)
    ensures CanRelay(S, t) && SharedById(S, t) && t.cs != [] && t.a.sub != "" && t.keyId == Client.KEY_ID
  {
    hide IsSuite, Dealer.CheckOptions, StartedFrom, Deployed, Enrolled, Kept, Collect, CommitAll, Reachable,
      ClocksAgree;
    OrderIsPrime(S);
    DealtIsDeployed(S, o, e, issuer, t.peers);
    AllCommit(S, t.peers, t.roundId, AskedNodes(t), t.draws, t.o.participants.Some?, t.threshold);
  }

  /**
   * A user signs on with the registered password at enough started nodes of the dealing, and every node of
   * it accepts the assertion exactly while it lives, for the sub that the dealer was given.
   */
  lemma DealtSignOn(S: Suite, o: Dealer.Options, e: Dealer.Entropy, issuer: string, j: nat, t: Attempt,
                    verifier: Settings, now: int)
    requires IsSuite(S) && j < |o.users| && AtDealtNodes(S, o, e, issuer, j, t) && t.o.password == o.users[j].password
    requires verifier.issuer == t.issuer && verifier.groupPublicKey == S.ed.mul(e.masterSecret, S.ed.base)
    ensures Order(S) > 0 && S.ristretto.order > 0 && Finished(S, t).Ok?
    ensures var v := VerifyAssertion(S, verifier, Finished(S, t).value, now);
            && (v.Ok? <==> (now <= t.d.now + 30 || t.d.now + 30 == 0)
                           && t.jkt != "" && t.o.clientId != "" && t.issuer != "")
            && (v.Ok? ==> v.value.id == Identity(o.users[j].sub, t.o.clientId, t.o.scope, t.jkt))
  {
    hide *;
    OrderIsPrime(S);
    DealtCanRelay(S, o, e, issuer, j, t);
    DealtNames(S, o, e, issuer, j, t);
    SignOnEndToEnd(S, t, verifier, now);
    LifetimeIs();
  }

  lemma LifetimeIs()
    ensures Client.ASSERTION_LIFETIME == 30 && ACCESS_TOKEN_LIFETIME == 3600 && REFRESH_TOKEN_LIFETIME == 2592000
    ensures CLOCK_SKEW == 60
  {
  }

  lemma DealtNames(S: Suite, o: Dealer.Options, e: Dealer.Entropy, issuer: string, j: nat, t: Attempt)
    requires IsSuite(S) && j < |o.users| && AtDealtNodes(S, o, e, issuer, j, t)
    ensures t.cs != [] && t.cs[0] == e.masterSecret && t.a.sub == o.users[j].sub && t.a.password == o.users[j].password
  {
    hide IsSuite, Dealer.CheckOptions, StartedFrom, AskedNodes, Reachable, ClocksAgree;
  }

  // ---- Buying tokens -----------------------------------------------------------------

  /**
   * The call is made at nodes of the dealing in whatever states they are by now, with enough of them
   * reachable for both rounds, and for the issuer of the dealing.
   */
  ghost predicate AtDealing(S: Suite, c: Call, cs: seq<int>)
    requires IsSuite(S)
  {
    OrderIsPrime(S);
    && cs != [] && |cs| <= c.threshold <= |c.ids| && Distinct(c.ids) && Deployed(S, c.peers, cs, c.issuer, c.keyId)
    && c.ch.accessRound != c.ch.refreshRound && c.ch.jti != "" && c.issuer != ""
    && Reachable(c.peers, c.ids, c.ch.accessDraws) && (forall i :: 0 <= i < |c.ids| ==> c.ch.refreshDraws(i).Some?)
  }

  lemma BothRounds(S: Suite, c: Call, cs: seq<int>)
    requires IsSuite(S) && AtDealing(S, c, cs)
    ensures CallOk(S, c, cs) && RoundsExist(S, c)
  {
    hide IsSuite, Deployed, Collect, CommitAll, Reachable;
    OrderIsPrime(S);
    AllCommit(S, c.peers, c.ch.accessRound, c.ids, c.ch.accessDraws, false, c.threshold);
    var (peers, access) := AccessRoundOf(S, c);
    StillReachable(S, c);
    AllCommit(S, peers, c.ch.refreshRound, access.value.participants, c.ch.refreshDraws, true, c.threshold);
  }

  lemma StillReachable(S: Suite, c: Call)
    requires AccessRoundOf(S, c).1.Ok? && Reachable(c.peers, c.ids, c.ch.accessDraws)
    requires forall i :: 0 <= i < |c.ids| ==> c.ch.refreshDraws(i).Some?
    ensures Reachable(AccessRoundOf(S, c).0, AccessRoundOf(S, c).1.value.participants, c.ch.refreshDraws)
    ensures |AccessRoundOf(S, c).1.value.participants| >= c.threshold
  {
    hide CommitAll, Collect;
    var (peers, settled) := CommitAll(S, c.peers, c.ch.accessRound, c.ids, c.ch.accessDraws);
    var r := Collect(settled, false, c.threshold).value;
    OutcomesInOrder(S, c.peers, c.ch.accessRound, c.ids, c.ch.accessDraws);
    CollectExact(settled, false, c.threshold);
    CollectSmall(settled, false, c.threshold);
    AmongAsked(r.participants, r.excluded, c.ids);
    forall i | 0 <= i < |r.participants|
      ensures r.participants[i] in peers
    {
      assert r.participants[i] in c.ids;
    }
  }

  lemma AmongAsked(a: seq<int>, b: seq<int>, ids: seq<int>)
    requires multiset(a) + multiset(b) == multiset(ids)
    ensures |a| <= |ids| && forall x :: x in a ==> x in ids
  {
    assert |ids| == |multiset(ids)| == |multiset(a)| + |multiset(b)|;
    forall x | x in a
      ensures x in ids
    {
      assert x in multiset(ids);
    }
  }

  /** The proof is made by the holder of the key for the token endpoint, at a time that fits the clocks of the nodes. */
  ghost predicate ProofMade(S: Suite, c: Call, key: Bytes, jti: string, at: int, signature: Bytes)
    requires Order(S) > 0
  {
    && c.dpopProof == Dpop.CreateProof(S, key, jti, "POST", c.issuer + "/token", at, None, signature)
    && Dpop.SignedProof(S, key, Dpop.CreatedPayload(S, jti, "POST", c.issuer + "/token", at, None), signature)
    && forall k :: 0 <= k < |c.ids| ==>
         c.ch.clocks(k).Some? && -60 <= c.ch.clocks(k).value - at <= 60 && -60 <= c.ch.clocks(k).value - c.ch.iat <= 60
  }

  lemma ProofFits(S: Suite, c: Call, key: Bytes, jti: string, at: int, signature: Bytes, t: Token)
    requires IsSuite(S) && Order(S) > 0 && ProofMade(S, c, key, jti, at, signature)
    requires t.id.jkt == Dpop.Thumbprint(S, Base64Url.UrlEncode(key))
    requires forall k :: 0 <= k < |c.ids| ==> c.ch.clocks(k).Some? && Alive(t, c.ch.clocks(k).value)
    ensures ClocksGood(S, c, t, |c.ids|)
  {
    hide IsSuite, Dpop.CreateProof, Dpop.SignedProof, Dpop.CreatedPayload, Dpop.VerifyProof, Dpop.Thumbprint;
    forall k | 0 <= k < |c.ids|
      ensures GoodClock(S, t, c.issuer, c.dpopProof, c.ch.iat, c.ch.clocks(k))
    {
      Dpop.CreatedProofAccepted(S, key, jti, "POST", c.issuer + "/token", at, None, signature, t.id.jkt, CLOCK_SKEW,
                                c.ch.clocks(k).value);
    }
  }

  /** The call presents the assertion of the attempt while it lives, with a proof by the key it was made for. */
  ghost predicate Presents(S: Suite, t: Attempt, c: Call, key: Bytes, jti: string, at: int, signature: Bytes)
    requires IsSuite(S)
  {
    OrderIsPrime(S);
    && t.o.clientId != "" && c.issuer == t.issuer && c.grant.AuthorizationCode? && Finished(S, t) == Ok(c.credential)
    && t.jkt == Dpop.Thumbprint(S, Base64Url.UrlEncode(key)) && ProofMade(S, c, key, jti, at, signature)
    && forall k :: 0 <= k < |c.ids| ==> c.ch.clocks(k).Some? && c.ch.clocks(k).value <= t.d.now + 30
  }

  lemma PresentsMeans(S: Suite, t: Attempt, c: Call, key: Bytes, jti: string, at: int, signature: Bytes)
    requires IsSuite(S) && Presents(S, t, c, key, jti, at, signature)
    ensures Order(S) > 0 && S.ristretto.order > 0 && Finished(S, t) == Ok(c.credential)
    ensures t.o.clientId != "" && c.issuer == t.issuer && c.grant.AuthorizationCode?
    ensures t.jkt == Dpop.Thumbprint(S, Base64Url.UrlEncode(key)) && ProofMade(S, c, key, jti, at, signature)
    ensures forall k :: 0 <= k < |c.ids| ==> c.ch.clocks(k).Some? && c.ch.clocks(k).value <= t.d.now + 30
  {
    hide IsSuite, Finished, ProofMade, Dpop.Thumbprint, Base64Url.UrlEncode;
    OrderIsPrime(S);
  }

  /**
   * The assertion of such a sign-on, presented with a proof by the key whose thumbprint it names, buys an
   * access and a refresh token for the sub that the dealer was given.
   */
  lemma DealtTokens(S: Suite, o: Dealer.Options, e: Dealer.Entropy, issuer: string, j: nat, t: Attempt, c: Call,
                    key: Bytes, jti: string, at: int, signature: Bytes)
    requires IsSuite(S) && j < |o.users| && AtDealtNodes(S, o, e, issuer, j, t) && t.o.password == o.users[j].password
    requires AtDealing(S, c, t.cs) && Presents(S, t, c, key, jti, at, signature)
    ensures Order(S) > 0 && Relay(S, c).Ok?
    ensures DecodeCredentialClaims(S, c.credential)
            == Ok(Identity(o.users[j].sub, t.o.clientId, t.o.scope, t.jkt))
  {
    hide *;
    OrderIsPrime(S);
    PresentsMeans(S, t, c, key, jti, at, signature);
    DealtCanRelay(S, o, e, issuer, j, t);
    DealtNames(S, o, e, issuer, j, t);
    BothRounds(S, c, t.cs);
    CallNames(S, c, t.cs);
    Dpop.ThumbprintLength(S, Base64Url.UrlEncode(key));
    LifetimeIs();
    forall k | 0 <= k < |c.ids|
      ensures c.ch.clocks(k).Some? && Alive(AttemptToken(t), c.ch.clocks(k).value)
    {
      ClaimedFacts(t, c.ch.clocks(k).value);
    }
    ClaimedFacts(t, 0);
    ProofFits(S, c, key, jti, at, signature, AttemptToken(t));
    SignOnBuysTokens(S, t, c);
  }

  lemma CallNames(S: Suite, c: Call, cs: seq<int>)
    requires IsSuite(S) && AtDealing(S, c, cs)
    ensures cs != [] && c.ch.jti != "" && c.issuer != ""
  {
    hide IsSuite, Deployed, Reachable;
  }

  /** And the refresh token of any such issue buys the next pair for the same identity, for thirty days. */
  lemma DealtRefresh(S: Suite, c: Call, next: Call, cs: seq<int>, claims: Identity, key: Bytes, jti: string, at: int,
                     signature: Bytes)
    requires IsSuite(S) && AtDealing(S, c, cs) && AtDealing(S, next, cs) && cs != [] && Order(S) > 0
    requires Relay(S, c).Ok? && DecodeCredentialClaims(S, c.credential) == Ok(claims)
    requires claims.jkt == Dpop.Thumbprint(S, Base64Url.UrlEncode(key)) && ProofMade(S, next, key, jti, at, signature)
    requires next.grant.RefreshToken? && next.issuer == c.issuer && next.credential == Relay(S, c).value.refreshToken
    requires forall k :: 0 <= k < |next.ids| ==>
               next.ch.clocks(k).Some? && next.ch.clocks(k).value <= c.ch.iat + 2592000
    ensures Relay(S, next).Ok? && DecodeCredentialClaims(S, next.credential) == Ok(claims)
  {
    hide *;
    OrderIsPrime(S);
    BothRounds(S, c, cs);
    BothRounds(S, next, cs);
    CallNames(S, c, cs);
    CallNames(S, next, cs);
    forall k | 0 <= k < |next.ids|
      ensures next.ch.clocks(k).Some? && Alive(RefreshFor(claims, c.ch.iat), next.ch.clocks(k).value)
    {
      RefreshLives(claims, c.ch.iat, next.ch.clocks(k).value);
    }
    RefreshLives(claims, c.ch.iat, c.ch.iat);
    ProofFits(S, next, key, jti, at, signature, RefreshFor(claims, c.ch.iat));
    RefreshAgain(S, c, next, cs);
  }

  lemma RefreshLives(claims: Identity, iat: int, now: int)
    ensures RefreshFor(claims, iat).id == claims
    ensures now <= iat + 2592000 ==> Alive(RefreshFor(claims, iat), now)
  {
  }
}
