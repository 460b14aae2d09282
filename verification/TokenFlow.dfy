/**
 * Token issue end to end: both rounds have one set of distinct participants, the gateway rebuilds the
 * bytes the nodes signed, both tokens carry a signature of the group, and the refresh token can be
 * spent in turn.
 */
module TokenFlow {
  import opened Arith
  import opened Seqs
  import opened Bytes
  import opened Interpolation
  import opened Json
  import opened Suites
  import opened Frost
  import opened Signing
  import opened Jwt
  import opened Tokens
  import opened Node
  import opened Gateway
  import opened Quorums
  import opened Federation
  import opened Deployment
  import opened Acceptance
  import Dpop
  import Hex
  import Lineage
  import Client
  import SignOnFlow

  // ---- One node's answer -------------------------------------------------------------

  /** The share of peer p over a token, with the nonces it has open for the round. */
  function TokenShare(S: Suite, p: Peer, roundId: string, t: Token, commitments: seq<Commitment>,
                      participants: seq<int>): Result<int>
    requires Order(S) > 0 && roundId in p.st.active
  {
    SignatureShare(S, p.cfg.nodeId, p.st.active[roundId].nonces, p.cfg.secretKeyShare,
                   Message(t, p.cfg.issuer, p.cfg.keyId), commitments, p.cfg.groupPublicKey, participants)
  }

  /** A node answers exactly when the request passes its checks and both shares exist. */
  lemma NodeSigns(S: Suite, p: Peer, ar: string, rr: string, req: SignRequest, ac: Commitment, rc: Commitment, at: int)
    requires Order(S) > 0
    ensures var r := Sign(S, p.cfg, p.st, ar, rr, req, ac, rc, at).1;
            var check := CheckSign(S, p.cfg, p.st, ar, rr, req, at);
            && (check.Ok? ==> ar in p.st.active && rr in p.st.active)
            && (r.Ok? <==> check.Ok?
                           && TokenShare(S, p, ar, AccessOf(check.value, req), req.commitments, req.allParticipants).Ok?
                           && TokenShare(S, p, rr, RefreshOf(check.value, req), req.refreshCommitments,
                                         req.allParticipants).Ok?)
            && (r.Ok? ==>
                  var za := TokenShare(S, p, ar, AccessOf(check.value, req), req.commitments,
                                       req.allParticipants).value;
                  var zr := TokenShare(S, p, rr, RefreshOf(check.value, req), req.refreshCommitments,
                                       req.allParticipants).value;
                  0 <= za < Order(S) && 0 <= zr < Order(S)
                  && r.value.accessShare == Hex.NodeScalarToHex(za) && r.value.refreshShare == Hex.NodeScalarToHex(zr))
  {
    hide Message, VerifyPresented, Dpop.VerifyProof, Hex.NodeScalarToHex, GroupCommitment, BindingFactor, LagrangeValue,
      Challenge;
  }

  /** The gateway reads the two scalars exactly as they were computed. */
  lemma SharesRead(S: Suite, r: SignResponse, za: int, zr: int)
    requires IsSuite(S) && 0 <= za < Order(S) && 0 <= zr < Order(S)
    requires r.accessShare == Hex.NodeScalarToHex(za) && r.refreshShare == Hex.NodeScalarToHex(zr)
    ensures ReadShares(Ok(r)) == Ok(Shares(za, zr))
  {
    hide IsSuite, IsPrime, IsGroup, Hex.NodeScalarToHex, Hex.HexToScalar, Hex.ScalarToHex, Pow;
    OrderIsPrime(S);
    Hex.ScalarRoundTrip(za);
    Hex.ScalarRoundTrip(zr);
  }

  // ---- The identity ------------------------------------------------------------------

  /** A node that accepts a request signs for the identity the gateway read from the credential. */
  lemma IdentityAgrees(S: Suite, p: Peer, ar: string, rr: string, grant: Grant, credential: string, dpopProof: string,
                       iat: int, jti: string, access: Round, refresh: Round, at: int, claims: Identity)
    requires Order(S) > 0 && DecodeCredentialClaims(S, credential) == Ok(claims)
    requires CheckSign(S, p.cfg, p.st, ar, rr, TokenRequest(grant, credential, dpopProof, iat, jti, access, refresh),
                       at).Ok?
    ensures CheckSign(S, p.cfg, p.st, ar, rr, TokenRequest(grant, credential, dpopProof, iat, jti, access, refresh),
                      at).value.id == claims
  {
    hide *;
    var req := TokenRequest(grant, credential, dpopProof, iat, jti, access, refresh);
    Lineage.CheckedIsVerified(S, p.cfg, p.st, ar, rr, req, at);
    Lineage.PresentedIsCredential(S, p.cfg, req, at);
    PresentsCredential(grant, credential, dpopProof, iat, jti, access, refresh);
    GatewayReadsSame(S, p.cfg, credential, if grant.AuthorizationCode? then "JWT" else "refresh+jwt", at);
  }

  lemma PresentsCredential(grant: Grant, credential: string, dpopProof: string, iat: int, jti: string, access: Round,
                           refresh: Round)
    ensures var req := TokenRequest(grant, credential, dpopProof, iat, jti, access, refresh);
            && Presented(req) == credential && req.grant == grant
            && req.commitments == access.commitments && req.refreshCommitments == refresh.commitments
            && req.allParticipants == access.participants && req.dpopProof == dpopProof && req.iat == iat
  {
  }

  // ---- The two rounds ----------------------------------------------------------------

  /** The two tokens of one issue. */
  function AccessFor(claims: Identity, iat: int, jti: string): Token
  {
    Access(claims, iat, iat + ACCESS_TOKEN_LIFETIME, jti)
  }

  function RefreshFor(claims: Identity, iat: int): Token
  {
    Refresh(claims, iat, iat + REFRESH_TOKEN_LIFETIME)
  }

  /**
   * The second round of one token issue: the states in which the nodes answer, arbitrary but for the
   * two open rounds, and the two collected rounds over one list of participants.
   */
  datatype Issue = Issue(peers: map<int, Peer>, cs: seq<int>, issuer: string, keyId: string, claims: Identity,
                         grant: Grant, credential: string, dpopProof: string, iat: int, jti: string,
                         ar: string, rr: string, access: Round, refresh: Round)

  ghost predicate IssueOk(S: Suite, s: Issue)
    requires IsSuite(S)
  {
    OrderIsPrime(S);
    && s.cs != [] && Deployed(S, s.peers, s.cs, s.issuer, s.keyId)
    && DecodeCredentialClaims(S, s.credential) == Ok(s.claims)
    && OpenFor(S, s.peers, s.ar, s.access.commitments) && OpenFor(S, s.peers, s.rr, s.refresh.commitments)
    && s.access.participants == CommitmentIds(s.access.commitments) && Distinct(s.access.participants)
    && s.refresh.participants == CommitmentIds(s.refresh.commitments) && s.refresh.participants == s.access.participants
    && |s.cs| <= |s.access.commitments|
  }

  function IssueRequest(s: Issue): SignRequest
  {
    TokenRequest(s.grant, s.credential, s.dpopProof, s.iat, s.jti, s.access, s.refresh)
  }

  /** One of the two FROST rounds of an issue. */
  ghost predicate RoundOf(s: Issue, roundId: string, t: Token, commitments: seq<Commitment>)
  {
    || (roundId == s.ar && t == AccessFor(s.claims, s.iat, s.jti) && commitments == s.access.commitments)
    || (roundId == s.rr && t == RefreshFor(s.claims, s.iat) && commitments == s.refresh.commitments)
  }

  /** The facts of one of the rounds: it has a quorum, and signer k of it is node k of the issue. */
  lemma RoundQuorum(S: Suite, s: Issue, roundId: string, t: Token, commitments: seq<Commitment>)
    requires IsSuite(S) && IssueOk(S, s) && RoundOf(s, roundId, t, commitments)
    ensures Order(S) > 0 && |commitments| == |s.access.commitments|
            && CommitmentIds(commitments) == s.access.participants
    ensures forall k :: 0 <= k < |commitments| ==> HasRound(s.peers, roundId, commitments[k].nodeId)
    ensures var q := SignersOf(s.peers, roundId, commitments);
            Quorum(S, q, s.cs) && PublishedAll(S, q) == commitments && SignerIds(q) == CommitmentIds(commitments)
  {
    hide IsSuite, IsPrime, IsGroup, Deployed, OpenFor, DecodeCredentialClaims, Quorum, PublishedAll, SignerIds;
    OrderIsPrime(S);
    assert |CommitmentIds(commitments)| == |commitments|;
    SignersAreQuorum(S, s.peers, s.cs, s.issuer, s.keyId, roundId, commitments);
  }

  /** What node k signs in one of the rounds. */
  function RoundShare(S: Suite, s: Issue, roundId: string, t: Token, commitments: seq<Commitment>, k: nat): Result<int>
    requires Order(S) > 0 && k < |commitments| && HasRound(s.peers, roundId, commitments[k].nodeId)
  {
    TokenShare(S, s.peers[commitments[k].nodeId], roundId, t, commitments, s.access.participants)
  }

  /** Node k's share exists and is that of signer k over the gateway's own message. */
  lemma RoundShareExists(S: Suite, s: Issue, roundId: string, t: Token, commitments: seq<Commitment>, k: nat)
    requires IsSuite(S) && IssueOk(S, s) && RoundOf(s, roundId, t, commitments) && k < |commitments|
    ensures Order(S) > 0 && HasRound(s.peers, roundId, commitments[k].nodeId)
    ensures forall j :: 0 <= j < |commitments| ==> HasRound(s.peers, roundId, commitments[j].nodeId)
    ensures RoundShare(S, s, roundId, t, commitments, k).Ok?
    ensures RoundShare(S, s, roundId, t, commitments, k)
            == ShareOf(S, SignersOf(s.peers, roundId, commitments)[k], Message(t, s.issuer, s.keyId), commitments,
                       S.ed.mul(s.cs[0], S.ed.base), s.access.participants)
  {
    hide IsSuite, IsPrime, IsGroup, OpenFor, Message, GroupCommitment, SignatureShare, Eval, Quorum, PublishedAll,
      SignerIds, DecodeCredentialClaims;
    OrderIsPrime(S);
    RoundQuorum(S, s, roundId, t, commitments);
    var q := SignersOf(s.peers, roundId, commitments);
    var msg, Y := Message(t, s.issuer, s.keyId), S.ed.mul(s.cs[0], S.ed.base);
    CommitmentIsMultiple(S, q, msg, commitments);
    ShareShape(S, q[k], msg, commitments, GroupCommitment(S, msg, commitments).value, Y, s.access.participants);
    assert DeployedNode(S, s.peers[commitments[k].nodeId].cfg, commitments[k].nodeId, s.cs, s.issuer, s.keyId);
  }

  /** The aggregate of one round's shares verifies on the token's message. */
  lemma RoundAggregates(S: Suite, s: Issue, roundId: string, t: Token, commitments: seq<Commitment>, zs: seq<int>)
    requires IsSuite(S) && IssueOk(S, s) && RoundOf(s, roundId, t, commitments) && |zs| == |commitments|
    requires forall k :: 0 <= k < |zs| ==> HasRound(s.peers, roundId, commitments[k].nodeId)
    requires forall k :: 0 <= k < |zs| ==> RoundShare(S, s, roundId, t, commitments, k) == Ok(zs[k])
    ensures var R := GroupCommitment(S, Message(t, s.issuer, s.keyId), commitments);
            R.Ok? && Verifies(S, Aggregate(R.value, zs, Order(S)), Message(t, s.issuer, s.keyId),
                              S.ed.mul(s.cs[0], S.ed.base))
  {
    hide IsSuite, IsPrime, IsGroup, OpenFor, Message, GroupCommitment, SignatureShare, Eval, Quorum,
      DecodeCredentialClaims, RoundShare, ShareOf, Verifies, Aggregate, HasRound, RoundOf, Deployed;
    OrderIsPrime(S);
    RoundQuorum(S, s, roundId, t, commitments);
    var q := SignersOf(s.peers, roundId, commitments);
    var msg, Y := Message(t, s.issuer, s.keyId), S.ed.mul(s.cs[0], S.ed.base);
    forall k | 0 <= k < |q|
      ensures ShareOf(S, q[k], msg, commitments, Y, s.access.participants) == Ok(zs[k])
    {
      RoundShareExists(S, s, roundId, t, commitments, k);
    }
    assert Answers(S, q, zs, msg, commitments, Y, s.access.participants);
    AggregateVerifies(S, q, s.cs, zs, zs, msg, commitments, s.access.participants);
  }

  // ---- The answers -------------------------------------------------------------------

  /** The peer that participant k is. */
  function PeerAt(S: Suite, s: Issue, k: nat): Peer
    requires k < |s.access.commitments| && HasRound(s.peers, s.ar, s.access.commitments[k].nodeId)
  {
    s.peers[s.access.commitments[k].nodeId]
  }

  /** Participant k accepts the request at this reading of its clock. */
  predicate Accepts(S: Suite, s: Issue, k: nat, clock: Option<int>)
    requires Order(S) > 0 && k < |s.access.commitments| && HasRound(s.peers, s.ar, s.access.commitments[k].nodeId)
  {
    clock.Some? && CheckSign(S, PeerAt(S, s, k).cfg, PeerAt(S, s, k).st, s.ar, s.rr, IssueRequest(s), clock.value).Ok?
  }

  /** Both rounds have participant k at the same place. */
  lemma SamePlace(S: Suite, s: Issue, k: nat)
    requires IsSuite(S) && IssueOk(S, s) && k < |s.access.commitments|
    ensures Order(S) > 0 && |s.refresh.commitments| == |s.access.commitments|
    ensures s.refresh.commitments[k].nodeId == s.access.commitments[k].nodeId
    ensures HasRound(s.peers, s.ar, s.access.commitments[k].nodeId)
            && HasRound(s.peers, s.rr, s.refresh.commitments[k].nodeId)
    ensures FindCommitment(s.refresh.commitments, s.access.commitments[k].nodeId) == Some(s.refresh.commitments[k])
    ensures PeerAt(S, s, k).cfg.issuer == s.issuer && PeerAt(S, s, k).cfg.keyId == s.keyId
  {
    hide IsSuite, IsPrime, IsGroup, OpenFor, DecodeCredentialClaims, PublishedBy, FindCommitment, DealtTo;
    OrderIsPrime(S);
    OpenHasRounds(S, s.peers, s.ar, s.access.commitments);
    OpenHasRounds(S, s.peers, s.rr, s.refresh.commitments);
    assert |CommitmentIds(s.refresh.commitments)| == |CommitmentIds(s.access.commitments)|;
    assert CommitmentIds(s.refresh.commitments)[k] == CommitmentIds(s.access.commitments)[k];
    FindCommitmentOf(s.refresh.commitments, k);
    assert DeployedNode(S, s.peers[s.access.commitments[k].nodeId].cfg, s.access.commitments[k].nodeId, s.cs, s.issuer,
                        s.keyId);
  }

  function AccessShare(S: Suite, s: Issue, k: nat): Result<int>
    requires Order(S) > 0 && k < |s.access.commitments| && HasRound(s.peers, s.ar, s.access.commitments[k].nodeId)
  {
    RoundShare(S, s, s.ar, AccessFor(s.claims, s.iat, s.jti), s.access.commitments, k)
  }

  function RefreshShare(S: Suite, s: Issue, k: nat): Result<int>
    requires Order(S) > 0 && k < |s.refresh.commitments| && HasRound(s.peers, s.rr, s.refresh.commitments[k].nodeId)
  {
    RoundShare(S, s, s.rr, RefreshFor(s.claims, s.iat), s.refresh.commitments, k)
  }

  lemma AreRounds(s: Issue)
    ensures RoundOf(s, s.ar, AccessFor(s.claims, s.iat, s.jti), s.access.commitments)
    ensures RoundOf(s, s.rr, RefreshFor(s.claims, s.iat), s.refresh.commitments)
  {
  }

  lemma BothSharesExist(S: Suite, s: Issue, k: nat)
    requires IsSuite(S) && IssueOk(S, s) && k < |s.access.commitments|
    ensures Order(S) > 0 && |s.refresh.commitments| == |s.access.commitments|
    ensures HasRound(s.peers, s.ar, s.access.commitments[k].nodeId)
            && HasRound(s.peers, s.rr, s.refresh.commitments[k].nodeId)
    ensures AccessShare(S, s, k).Ok? && RefreshShare(S, s, k).Ok?
  {
    hide IsSuite, IsPrime, IsGroup, IssueOk, RoundShare, AccessFor, RefreshFor, FindCommitment, RoundOf, ShareOf,
      Message, HasRound;
    OrderIsPrime(S);
    SamePlace(S, s, k);
    AreRounds(s);
    RoundShareExists(S, s, s.ar, AccessFor(s.claims, s.iat, s.jti), s.access.commitments, k);
    RoundShareExists(S, s, s.rr, RefreshFor(s.claims, s.iat), s.refresh.commitments, k);
  }

  /** The shares that participant k gives, one in each round. */
  ghost function SharesAt(S: Suite, s: Issue, k: nat): Shares
    requires IsSuite(S) && IssueOk(S, s) && k < |s.access.commitments|
  {
    BothSharesExist(S, s, k);
    Shares(AccessShare(S, s, k).value, RefreshShare(S, s, k).value)
  }

  /** What a node signs for a verified identity is what the gateway rebuilds from its claims. */
  lemma TokensForIdentity(s: Issue, c: Credential)
    requires c.id == s.claims
    ensures AccessOf(c, IssueRequest(s)) == AccessFor(s.claims, s.iat, s.jti)
    ensures RefreshOf(c, IssueRequest(s)) == RefreshFor(s.claims, s.iat)
  {
  }

  /** Participant k answers exactly when it accepts, and then with its two shares. */
  lemma IssueAnswer(S: Suite, s: Issue, k: nat, clock: Option<int>)
    requires IsSuite(S) && IssueOk(S, s) && k < |s.access.commitments|
    ensures Order(S) > 0 && HasRound(s.peers, s.ar, s.access.commitments[k].nodeId)
    ensures var r := SignCall(S, s.peers, s.ar, s.rr, IssueRequest(s), s.access.commitments[k], clock);
            && (r.Ok? <==> Accepts(S, s, k, clock)) && (r.Ok? ==> r == Ok(SharesAt(S, s, k)))
  {
    hide IsSuite, IsPrime, IsGroup, IssueOk, CheckSign, Sign, FindCommitment, ReadShares, SignCall, SharesAt,
      TokenRequest, HasRound;
    OrderIsPrime(S);
    SamePlace(S, s, k);
    CallIsSign(S, s, k, clock);
    if clock.Some? {
      IssueAnswerAt(S, s, k, clock.value);
    }
  }

  lemma CallIsSign(S: Suite, s: Issue, k: nat, clock: Option<int>)
    requires IsSuite(S) && IssueOk(S, s) && k < |s.access.commitments|
    ensures Order(S) > 0 && HasRound(s.peers, s.ar, s.access.commitments[k].nodeId) && k < |s.refresh.commitments|
    ensures var p := PeerAt(S, s, k);
            SignCall(S, s.peers, s.ar, s.rr, IssueRequest(s), s.access.commitments[k], clock)
            == if clock.None? then Err(NodeUnreachable)
               else ReadShares(Sign(S, p.cfg, p.st, s.ar, s.rr, IssueRequest(s), s.access.commitments[k],
                                    s.refresh.commitments[k], clock.value).1)
  {
    hide IsSuite, IsPrime, IsGroup, IssueOk, Sign, FindCommitment, ReadShares, TokenRequest;
    OrderIsPrime(S);
    SamePlace(S, s, k);
    PresentsCredential(s.grant, s.credential, s.dpopProof, s.iat, s.jti, s.access, s.refresh);
  }

  lemma ClaimsDecoded(S: Suite, s: Issue)
    requires IsSuite(S) && IssueOk(S, s)
    ensures DecodeCredentialClaims(S, s.credential) == Ok(s.claims)
  {
    hide IsSuite;
  }

  /** What participant k computes for a request it accepts are the shares of the two rounds. */
  lemma AcceptedShares(S: Suite, s: Issue, k: nat, c: Credential)
    requires IsSuite(S) && IssueOk(S, s) && k < |s.access.commitments| && c.id == s.claims
    ensures Order(S) > 0 && HasRound(s.peers, s.ar, s.access.commitments[k].nodeId)
    ensures HasRound(s.peers, s.rr, s.access.commitments[k].nodeId)
    ensures var p, req := PeerAt(S, s, k), IssueRequest(s);
            && TokenShare(S, p, s.ar, AccessOf(c, req), req.commitments, req.allParticipants)
               == Ok(SharesAt(S, s, k).access)
            && TokenShare(S, p, s.rr, RefreshOf(c, req), req.refreshCommitments, req.allParticipants)
               == Ok(SharesAt(S, s, k).refresh)
  {
    hide IsSuite, IsPrime, IsGroup, IssueOk, FindCommitment, AccessFor, RefreshFor, TokenShare, AccessOf, RefreshOf,
      TokenRequest;
    OrderIsPrime(S);
    SamePlace(S, s, k);
    BothSharesExist(S, s, k);
    PresentsCredential(s.grant, s.credential, s.dpopProof, s.iat, s.jti, s.access, s.refresh);
    TokensForIdentity(s, c);
  }

  lemma IssueAnswerAt(S: Suite, s: Issue, k: nat, at: int)
    requires IsSuite(S) && IssueOk(S, s) && k < |s.access.commitments|
    ensures Order(S) > 0 && HasRound(s.peers, s.ar, s.access.commitments[k].nodeId) && k < |s.refresh.commitments|
    ensures var p := PeerAt(S, s, k);
            var r := ReadShares(Sign(S, p.cfg, p.st, s.ar, s.rr, IssueRequest(s), s.access.commitments[k],
                                     s.refresh.commitments[k], at).1);
            && (r.Ok? <==> CheckSign(S, p.cfg, p.st, s.ar, s.rr, IssueRequest(s), at).Ok?)
            && (r.Ok? ==> r == Ok(SharesAt(S, s, k)))
  {
    hide *;
    OrderIsPrime(S);
    SamePlace(S, s, k);
    ClaimsDecoded(S, s);
    var p, req := PeerAt(S, s, k), IssueRequest(s);
    var answer := Sign(S, p.cfg, p.st, s.ar, s.rr, req, s.access.commitments[k], s.refresh.commitments[k], at).1;
    NodeSigns(S, p, s.ar, s.rr, req, s.access.commitments[k], s.refresh.commitments[k], at);
    var check := CheckSign(S, p.cfg, p.st, s.ar, s.rr, req, at);
    if check.Ok? {
      CheckedIdentity(S, s, p, at);
      AcceptedShares(S, s, k, check.value);
      SharesRead(S, answer.value, SharesAt(S, s, k).access, SharesAt(S, s, k).refresh);
    } else {
      RefusedStays(answer);
    }
  }

  lemma CheckedIdentity(S: Suite, s: Issue, p: Peer, at: int)
    requires IsSuite(S) && IssueOk(S, s)
    requires CheckSign(S, p.cfg, p.st, s.ar, s.rr, IssueRequest(s), at).Ok?
    ensures CheckSign(S, p.cfg, p.st, s.ar, s.rr, IssueRequest(s), at).value.id == s.claims
  {
    hide IsSuite, IssueOk, CheckSign, DecodeCredentialClaims, TokenRequest;
    OrderIsPrime(S);
    ClaimsDecoded(S, s);
    IdentityAgrees(S, p, s.ar, s.rr, s.grant, s.credential, s.dpopProof, s.iat, s.jti, s.access, s.refresh, at,
                   s.claims);
  }

  lemma RefusedStays(r: Result<SignResponse>)
    requires r.Err?
    ensures ReadShares(r).Err?
  {
  }

  // ---- The whole second round --------------------------------------------------------

  /** Every participant accepts. */
  ghost predicate AllAccept(S: Suite, s: Issue, clocks: nat -> Option<int>)
    requires IsSuite(S) && IssueOk(S, s)
  {
    forall k :: 0 <= k < |s.access.commitments| ==> AcceptsAt(S, s, k, clocks(k))
  }

  ghost predicate AcceptsAt(S: Suite, s: Issue, k: nat, clock: Option<int>)
    requires IsSuite(S) && IssueOk(S, s) && k < |s.access.commitments|
  {
    SamePlace(S, s, k);
    Accepts(S, s, k, clock)
  }

  ghost function AllShares(S: Suite, s: Issue): (r: seq<Shares>)
    requires IsSuite(S) && IssueOk(S, s)
    ensures |r| == |s.access.commitments| && forall k :: 0 <= k < |r| ==> r[k] == SharesAt(S, s, k)
  {
    seq(|s.access.commitments|,
        k requires 0 <= k < |s.access.commitments| && IsSuite(S) && IssueOk(S, s) => SharesAt(S, s, k))
  }

  /** The sign calls succeed together exactly when every participant accepts, and give all the shares. */
  lemma CallsExact(S: Suite, s: Issue, clocks: nat -> Option<int>)
    requires IsSuite(S) && IssueOk(S, s)
    ensures var r := AllOk(SignAll(S, s.peers, s.ar, s.rr, IssueRequest(s), s.access.commitments, clocks).1);
            (r.Ok? <==> AllAccept(S, s, clocks)) && (r.Ok? ==> r == Ok(AllShares(S, s)))
  {
    hide *;
    OrderIsPrime(S);
    IssueDistinct(S, s);
    SignAllAnswers(S, s.peers, s.ar, s.rr, IssueRequest(s), s.access.commitments, clocks);
    var results := SignAll(S, s.peers, s.ar, s.rr, IssueRequest(s), s.access.commitments, clocks).1;
    var good := Verdicts(S, s, clocks);
    forall k | 0 <= k < |results|
      ensures results[k].Ok? <==> good[k]
      ensures good[k] ==> results[k] == Ok(AllShares(S, s)[k])
    {
      VerdictExact(S, s, k, clocks(k));
    }
    AllOkPointwise(results, good, AllShares(S, s));
    VerdictsAll(S, s, clocks);
  }

  /** Who accepts. */
  ghost function Verdicts(S: Suite, s: Issue, clocks: nat -> Option<int>): (r: seq<bool>)
    requires IsSuite(S) && IssueOk(S, s)
    ensures |r| == |s.access.commitments| && forall k :: 0 <= k < |r| ==> r[k] == AcceptsAt(S, s, k, clocks(k))
  {
    seq(|s.access.commitments|, k requires 0 <= k < |s.access.commitments| && IsSuite(S) && IssueOk(S, s) =>
      AcceptsAt(S, s, k, clocks(k)))
  }

  lemma VerdictExact(S: Suite, s: Issue, k: nat, clock: Option<int>)
    requires IsSuite(S) && IssueOk(S, s) && k < |s.access.commitments|
    ensures var r := SignCall(S, s.peers, s.ar, s.rr, IssueRequest(s), s.access.commitments[k], clock);
            (r.Ok? <==> AcceptsAt(S, s, k, clock)) && (r.Ok? ==> r == Ok(SharesAt(S, s, k)))
  {
    hide IsSuite, IssueOk, SignCall, SharesAt, Accepts, IssueRequest;
    OrderIsPrime(S);
    IssueAnswer(S, s, k, clock);
  }

  lemma VerdictsAll(S: Suite, s: Issue, clocks: nat -> Option<int>)
    requires IsSuite(S) && IssueOk(S, s)
    ensures AllAccept(S, s, clocks) <==> forall k :: 0 <= k < |Verdicts(S, s, clocks)| ==> Verdicts(S, s, clocks)[k]
  {
    hide IsSuite, IssueOk, AcceptsAt, Verdicts;
    if forall k :: 0 <= k < |Verdicts(S, s, clocks)| ==> Verdicts(S, s, clocks)[k] {
      forall k | 0 <= k < |s.access.commitments|
        ensures AcceptsAt(S, s, k, clocks(k))
      {
        assert Verdicts(S, s, clocks)[k];
      }
    }
  }

  lemma IssueDistinct(S: Suite, s: Issue)
    requires IsSuite(S) && IssueOk(S, s)
    ensures Distinct(CommitmentIds(s.access.commitments)) && |s.access.commitments| == |s.refresh.commitments|
    ensures Deployed(S, s.peers, s.cs, s.issuer, s.keyId)
  {
    hide IsSuite, Deployed;
    assert |CommitmentIds(s.access.commitments)| == |CommitmentIds(s.refresh.commitments)|;
  }

  /** The signatures of the two tokens. */
  ghost function AccessSignature(S: Suite, s: Issue): Bytes
    requires IsSuite(S) && IssueOk(S, s)
    requires GroupCommitment(S, Message(AccessFor(s.claims, s.iat, s.jti), s.issuer, s.keyId), s.access.commitments).Ok?
  {
    Aggregate(GroupCommitment(S, Message(AccessFor(s.claims, s.iat, s.jti), s.issuer, s.keyId),
                              s.access.commitments).value,
              AccessShares(AllShares(S, s)), Order(S))
  }

  ghost function RefreshSignature(S: Suite, s: Issue): Bytes
    requires IsSuite(S) && IssueOk(S, s)
    requires GroupCommitment(S, Message(RefreshFor(s.claims, s.iat), s.issuer, s.keyId), s.refresh.commitments).Ok?
  {
    Aggregate(GroupCommitment(S, Message(RefreshFor(s.claims, s.iat), s.issuer, s.keyId), s.refresh.commitments).value,
              RefreshShares(AllShares(S, s)), Order(S))
  }

  /** The gateway rebuilds byte for byte what the nodes signed, exactly when both have the same key id. */
  lemma RebuiltTokens(claims: Identity, issuer: string, gatewayKeyId: string, nodeKeyId: string, iat: int, jti: string)
    ensures gatewayKeyId == nodeKeyId
            <==> SigningInput(Header("at+jwt", gatewayKeyId),
                              AccessPayload(claims, issuer, iat, iat + ACCESS_TOKEN_LIFETIME, jti))
                 == Message(AccessFor(claims, iat, jti), issuer, nodeKeyId)
    ensures gatewayKeyId == nodeKeyId
            <==> SigningInput(Header("refresh+jwt", gatewayKeyId),
                              RefreshPayload(claims, issuer, iat, iat + REFRESH_TOKEN_LIFETIME))
                 == Message(RefreshFor(claims, iat), issuer, nodeKeyId)
  {
    TokenParts(claims, issuer, iat, jti);
    SameKeyId(AccessFor(claims, iat, jti), issuer, gatewayKeyId, nodeKeyId);
    SameKeyId(RefreshFor(claims, iat), issuer, gatewayKeyId, nodeKeyId);
    hide Payload, SigningInput, Header, Typ, AccessPayload, RefreshPayload, AccessFor, RefreshFor;
  }

  lemma SameKeyId(t: Token, issuer: string, kid: string, kid': string)
    ensures Message(t, issuer, kid) == Message(t, issuer, kid') <==> kid == kid'
  {
    hide Message;
    if Message(t, issuer, kid) == Message(t, issuer, kid') {
      MessageInjective(t, issuer, kid, t, issuer, kid');
    }
  }

  lemma AccessAggregates(S: Suite, s: Issue)
    requires IsSuite(S) && IssueOk(S, s)
    ensures Order(S) > 0
    ensures GroupCommitment(S, Message(AccessFor(s.claims, s.iat, s.jti), s.issuer, s.keyId), s.access.commitments).Ok?
    ensures Verifies(S, AccessSignature(S, s), Message(AccessFor(s.claims, s.iat, s.jti), s.issuer, s.keyId),
                     S.ed.mul(s.cs[0], S.ed.base))
  {
    hide IsSuite, IsPrime, IsGroup, IssueOk, RoundShare, AccessFor, Message, GroupCommitment, Verifies, Aggregate,
      HasRound;
    OrderIsPrime(S);
    AreRounds(s);
    var zs := AccessShares(AllShares(S, s));
    forall k | 0 <= k < |zs|
      ensures HasRound(s.peers, s.ar, s.access.commitments[k].nodeId)
      ensures RoundShare(S, s, s.ar, AccessFor(s.claims, s.iat, s.jti), s.access.commitments, k) == Ok(zs[k])
    {
      BothSharesExist(S, s, k);
    }
    RoundAggregates(S, s, s.ar, AccessFor(s.claims, s.iat, s.jti), s.access.commitments, zs);
  }

  lemma RefreshAggregates(S: Suite, s: Issue)
    requires IsSuite(S) && IssueOk(S, s)
    ensures Order(S) > 0
    ensures GroupCommitment(S, Message(RefreshFor(s.claims, s.iat), s.issuer, s.keyId), s.refresh.commitments).Ok?
    ensures Verifies(S, RefreshSignature(S, s), Message(RefreshFor(s.claims, s.iat), s.issuer, s.keyId),
                     S.ed.mul(s.cs[0], S.ed.base))
  {
    hide IsSuite, IsPrime, IsGroup, IssueOk, RoundShare, RefreshFor, Message, GroupCommitment, Verifies, Aggregate,
      HasRound, Deployed;
    OrderIsPrime(S);
    IssueDistinct(S, s);
    AreRounds(s);
    var zs := RefreshShares(AllShares(S, s));
    forall k | 0 <= k < |zs|
      ensures HasRound(s.peers, s.rr, s.refresh.commitments[k].nodeId)
      ensures RoundShare(S, s, s.rr, RefreshFor(s.claims, s.iat), s.refresh.commitments, k) == Ok(zs[k])
    {
      BothSharesExist(S, s, k);
    }
    RoundAggregates(S, s, s.rr, RefreshFor(s.claims, s.iat), s.refresh.commitments, zs);
  }

  /** From all the shares the gateway makes two tokens, each under a signature of the group. */
  lemma GatewaySynthesises(S: Suite, s: Issue) returns (accessSignature: Bytes, refreshSignature: Bytes)
    requires IsSuite(S) && IssueOk(S, s)
    ensures Order(S) > 0
    ensures Synthesise(S, s.claims, s.issuer, s.keyId, s.iat, s.jti, s.access, s.refresh, AllShares(S, s))
            == Ok(Issued(TokenText(AccessFor(s.claims, s.iat, s.jti), s.issuer, s.keyId, accessSignature),
                         TokenText(RefreshFor(s.claims, s.iat), s.issuer, s.keyId, refreshSignature),
                         ACCESS_TOKEN_LIFETIME, s.claims.scope, s.claims.jkt))
    ensures Verifies(S, accessSignature, Message(AccessFor(s.claims, s.iat, s.jti), s.issuer, s.keyId),
                     S.ed.mul(s.cs[0], S.ed.base))
    ensures Verifies(S, refreshSignature, Message(RefreshFor(s.claims, s.iat), s.issuer, s.keyId),
                     S.ed.mul(s.cs[0], S.ed.base))
  {
    hide *;
    OrderIsPrime(S);
    AccessAggregates(S, s);
    RefreshAggregates(S, s);
    AccessAssembled(S, s);
    RefreshAssembled(S, s);
    BothTokens(S, s.claims, s.issuer, s.keyId, s.iat, s.jti, s.access, s.refresh, AllShares(S, s));
    accessSignature := AccessSignature(S, s);
    refreshSignature := RefreshSignature(S, s);
  }

  /** Assembly over a token's own header and payload gives the token's text. */
  lemma AssembledText(S: Suite, t: Token, issuer: string, keyId: string, header: Json, payload: Json,
                      commitments: seq<Commitment>, shares: seq<int>)
    requires Order(S) > 0 && header == Header(Typ(t), keyId) && payload == Payload(t, issuer)
    requires GroupCommitment(S, Message(t, issuer, keyId), commitments).Ok?
    ensures AssembleToken(S, header, payload, commitments, shares)
            == Ok(TokenText(t, issuer, keyId,
                            Aggregate(GroupCommitment(S, Message(t, issuer, keyId), commitments).value, shares,
                                      Order(S))))
  {
    hide Payload, SigningInput, Segment, Assemble, Header, GroupCommitment, Aggregate, Typ;
  }

  lemma TokenParts(claims: Identity, issuer: string, iat: int, jti: string)
    ensures AccessPayload(claims, issuer, iat, iat + ACCESS_TOKEN_LIFETIME, jti)
            == Payload(AccessFor(claims, iat, jti), issuer)
    ensures RefreshPayload(claims, issuer, iat, iat + REFRESH_TOKEN_LIFETIME)
            == Payload(RefreshFor(claims, iat), issuer)
    ensures Typ(AccessFor(claims, iat, jti)) == "at+jwt" && Typ(RefreshFor(claims, iat)) == "refresh+jwt"
  {
  }

  lemma AccessAssembled(S: Suite, s: Issue)
    requires IsSuite(S) && IssueOk(S, s)
    requires GroupCommitment(S, Message(AccessFor(s.claims, s.iat, s.jti), s.issuer, s.keyId), s.access.commitments).Ok?
    ensures AssembleToken(S, Header("at+jwt", s.keyId),
                          AccessPayload(s.claims, s.issuer, s.iat, s.iat + ACCESS_TOKEN_LIFETIME, s.jti),
                          s.access.commitments, AccessShares(AllShares(S, s)))
            == Ok(TokenText(AccessFor(s.claims, s.iat, s.jti), s.issuer, s.keyId, AccessSignature(S, s)))
  {
    hide *;
    OrderIsPrime(S);
    TokenParts(s.claims, s.issuer, s.iat, s.jti);
    SignaturesAre(S, s);
    AssembledText(S, AccessFor(s.claims, s.iat, s.jti), s.issuer, s.keyId, Header("at+jwt", s.keyId),
                  AccessPayload(s.claims, s.issuer, s.iat, s.iat + ACCESS_TOKEN_LIFETIME, s.jti), s.access.commitments,
                  AccessShares(AllShares(S, s)));
  }

  lemma RefreshAssembled(S: Suite, s: Issue)
    requires IsSuite(S) && IssueOk(S, s)
    requires GroupCommitment(S, Message(RefreshFor(s.claims, s.iat), s.issuer, s.keyId), s.refresh.commitments).Ok?
    ensures AssembleToken(S, Header("refresh+jwt", s.keyId),
                          RefreshPayload(s.claims, s.issuer, s.iat, s.iat + REFRESH_TOKEN_LIFETIME),
                          s.refresh.commitments, RefreshShares(AllShares(S, s)))
            == Ok(TokenText(RefreshFor(s.claims, s.iat), s.issuer, s.keyId, RefreshSignature(S, s)))
  {
    hide *;
    OrderIsPrime(S);
    TokenParts(s.claims, s.issuer, s.iat, s.jti);
    SignaturesAre(S, s);
    AssembledText(S, RefreshFor(s.claims, s.iat), s.issuer, s.keyId, Header("refresh+jwt", s.keyId),
                  RefreshPayload(s.claims, s.issuer, s.iat, s.iat + REFRESH_TOKEN_LIFETIME), s.refresh.commitments,
                  RefreshShares(AllShares(S, s)));
  }

  lemma SignaturesAre(S: Suite, s: Issue)
    requires IsSuite(S) && IssueOk(S, s)
    ensures var R :=
      GroupCommitment(S, Message(AccessFor(s.claims, s.iat, s.jti), s.issuer, s.keyId), s.access.commitments);
            R.Ok? ==> AccessSignature(S, s) == Aggregate(R.value, AccessShares(AllShares(S, s)), Order(S))
    ensures var R := GroupCommitment(S, Message(RefreshFor(s.claims, s.iat), s.issuer, s.keyId), s.refresh.commitments);
            R.Ok? ==> RefreshSignature(S, s) == Aggregate(R.value, RefreshShares(AllShares(S, s)), Order(S))
  {
    hide IsSuite, IssueOk, GroupCommitment, Message, Aggregate, AccessShares, RefreshShares, AllShares;
    OrderIsPrime(S);
  }

  // ---- Over the gateway --------------------------------------------------------------

  /** What one token issue is about: who asks the gateway for what, and with which nodes behind it. */
  datatype Call = Call(peers: map<int, Peer>, ids: seq<int>, threshold: int, issuer: string, keyId: string,
                       grant: Grant, credential: string, dpopProof: string, ch: Chances)

  function Relay(S: Suite, c: Call): Result<Issued>
    requires Order(S) > 0
  {
    RelaySign(S, c.peers, c.ids, c.threshold, c.issuer, c.keyId, c.grant, c.credential, c.dpopProof, c.ch).1
  }

  function AccessRoundOf(S: Suite, c: Call): (map<int, Peer>, Result<Round>)
  {
    var (peers, settled) := CommitAll(S, c.peers, c.ch.accessRound, c.ids, c.ch.accessDraws);
    (peers, Collect(settled, false, c.threshold))
  }

  function RefreshRoundOf(S: Suite, c: Call): (map<int, Peer>, Result<Round>)
    requires AccessRoundOf(S, c).1.Ok?
  {
    var (peers1, access) := AccessRoundOf(S, c);
    var (peers, settled) := CommitAll(S, peers1, c.ch.refreshRound, access.value.participants, c.ch.refreshDraws);
    (peers, Collect(settled, true, c.threshold))
  }

  /** Enough nodes commit to the first round, and all of those to the second. */
  predicate RoundsExist(S: Suite, c: Call)
  {
    AccessRoundOf(S, c).1.Ok? && RefreshRoundOf(S, c).1.Ok?
  }

  function IssueAfter(S: Suite, c: Call, cs: seq<int>, claims: Identity): Issue
    requires RoundsExist(S, c)
  {
    Issue(RefreshRoundOf(S, c).0, cs, c.issuer, c.keyId, claims, c.grant, c.credential, c.dpopProof, c.ch.iat, c.ch.jti,
          c.ch.accessRound, c.ch.refreshRound, AccessRoundOf(S, c).1.value, RefreshRoundOf(S, c).1.value)
  }

  /** Opening one round leaves the commitments of another one open. */
  lemma OpenKept(S: Suite, peers: map<int, Peer>, peers': map<int, Peer>, ar: string, rr: string,
                 commitments: seq<Commitment>)
    requires OpenFor(S, peers, ar, commitments) && ar != rr && peers'.Keys == peers.Keys
    requires forall id :: id in peers ==> SameButRound(peers[id], peers'[id], rr)
    ensures OpenFor(S, peers', ar, commitments)
  {
    hide PublishedBy;
    forall k | 0 <= k < |commitments|
      ensures OpenCommitment(S, peers', ar, commitments[k])
    {
      assert OpenCommitment(S, peers, ar, commitments[k]);
      var id := commitments[k].nodeId;
      assert SameButRound(peers[id], peers'[id], rr);
      assert ar in peers[id].st.active - {rr};
      assert (peers'[id].st.active - {rr})[ar] == (peers[id].st.active - {rr})[ar];
    }
  }

  /** The deployment a token issue relies on. */
  ghost predicate CallOk(S: Suite, c: Call, cs: seq<int>)
    requires IsSuite(S)
  {
    OrderIsPrime(S);
    cs != [] && |cs| <= c.threshold && Deployed(S, c.peers, cs, c.issuer, c.keyId) && Distinct(c.ids)
    && c.ch.accessRound != c.ch.refreshRound
  }

  lemma FirstRoundOk(S: Suite, c: Call, cs: seq<int>)
    requires IsSuite(S) && CallOk(S, c, cs) && AccessRoundOf(S, c).1.Ok?
    ensures Order(S) > 0 && cs != []
    ensures var (peers, access) := AccessRoundOf(S, c);
            && Deployed(S, peers, cs, c.issuer, c.keyId)
            && OpenFor(S, peers, c.ch.accessRound, access.value.commitments)
            && Distinct(access.value.participants)
            && access.value.participants == CommitmentIds(access.value.commitments)
            && |cs| <= |access.value.commitments|
  {
    hide IsSuite, IsPrime, IsGroup, CommitAll, Collect, Deployed, OpenFor;
    OrderIsPrime(S);
    CollectedOpen(S, c.peers, c.ch.accessRound, c.ids, c.ch.accessDraws, false, c.threshold);
    SignOnFlow.CommitKeepsDeployment(S, c.peers, c.ch.accessRound, c.ids, c.ch.accessDraws, cs, c.issuer, c.keyId);
  }

  /** Both rounds are open at one set of distinct participants. */
  lemma IssueAfterOk(S: Suite, c: Call, cs: seq<int>, claims: Identity)
    requires IsSuite(S) && CallOk(S, c, cs) && RoundsExist(S, c)
             && DecodeCredentialClaims(S, c.credential) == Ok(claims)
    ensures IssueOk(S, IssueAfter(S, c, cs, claims))
  {
    hide IsSuite, IsPrime, IsGroup, CommitAll, Collect, Deployed, OpenFor, DecodeCredentialClaims;
    OrderIsPrime(S);
    FirstRoundOk(S, c, cs);
    var (peers1, access) := AccessRoundOf(S, c);
    var ids := access.value.participants;
    CommitAllOutcomes(S, peers1, c.ch.refreshRound, ids, c.ch.refreshDraws);
    CollectedOpen(S, peers1, c.ch.refreshRound, ids, c.ch.refreshDraws, true, c.threshold);
    SignOnFlow.CommitKeepsDeployment(S, peers1, c.ch.refreshRound, ids, c.ch.refreshDraws, cs, c.issuer, c.keyId);
    SecondRoundSame(CommitAll(S, c.peers, c.ch.accessRound, c.ids, c.ch.accessDraws).1,
                    CommitAll(S, peers1, c.ch.refreshRound, ids, c.ch.refreshDraws).1, c.threshold);
    OpenKept(S, peers1, RefreshRoundOf(S, c).0, c.ch.accessRound, c.ch.refreshRound, access.value.commitments);
  }

  /** The relay, once both rounds exist. */
  lemma RelayIs(S: Suite, c: Call, cs: seq<int>, claims: Identity)
    requires Order(S) > 0 && RoundsExist(S, c) && DecodeCredentialClaims(S, c.credential) == Ok(claims)
             && c.threshold <= |c.ids|
    ensures var s := IssueAfter(S, c, cs, claims);
            var shares := AllOk(SignAll(S, s.peers, s.ar, s.rr, IssueRequest(s), s.access.commitments, c.ch.clocks).1);
            Relay(S, c) == if shares.Err? then Err(shares.error)
                           else Synthesise(S, s.claims, s.issuer, s.keyId, s.iat, s.jti, s.access, s.refresh,
                                           shares.value)
  {
    hide CommitAll, Collect, DecodeCredentialClaims, SignAll, AllOk, Synthesise, TokenRequest;
  }

  lemma RelayNeedsRounds(S: Suite, c: Call)
    requires Order(S) > 0 && Relay(S, c).Ok?
    ensures RoundsExist(S, c) && DecodeCredentialClaims(S, c.credential).Ok?
  {
    hide CommitAll, Collect, DecodeCredentialClaims, SignAll, AllOk, Synthesise, TokenRequest;
  }

  lemma EnoughAsked(S: Suite, c: Call)
    requires AccessRoundOf(S, c).1.Ok? && Distinct(c.ids)
    ensures c.threshold <= |c.ids|
  {
    hide CommitAll, Collect;
    CommitAllOutcomes(S, c.peers, c.ch.accessRound, c.ids, c.ch.accessDraws);
    CollectSmall(CommitAll(S, c.peers, c.ch.accessRound, c.ids, c.ch.accessDraws).1, false, c.threshold);
  }

  /**
   * A token issue succeeds exactly when every participant accepts the credential, the proof and the
   * claims; and then both tokens are the ones the nodes signed, under signatures of the group.
   */
  lemma TokenIssueExact(S: Suite, c: Call, cs: seq<int>, claims: Identity) returns (s: Issue, at: Bytes, rt: Bytes)
    requires IsSuite(S) && CallOk(S, c, cs) && RoundsExist(S, c)
             && DecodeCredentialClaims(S, c.credential) == Ok(claims)
    ensures Order(S) > 0 && cs != [] && s == IssueAfter(S, c, cs, claims) && IssueOk(S, s)
    ensures Relay(S, c).Ok? <==> AllAccept(S, s, c.ch.clocks)
    ensures Relay(S, c).Ok? ==>
              Relay(S, c) == Ok(Issued(TokenText(AccessFor(claims, c.ch.iat, c.ch.jti), c.issuer, c.keyId, at),
                                       TokenText(RefreshFor(claims, c.ch.iat), c.issuer, c.keyId, rt),
                                       ACCESS_TOKEN_LIFETIME, claims.scope, claims.jkt))
    ensures Verifies(S, at, Message(AccessFor(claims, c.ch.iat, c.ch.jti), c.issuer, c.keyId),
                     S.ed.mul(cs[0], S.ed.base))
    ensures Verifies(S, rt, Message(RefreshFor(claims, c.ch.iat), c.issuer, c.keyId), S.ed.mul(cs[0], S.ed.base))
  {
    hide *;
    OrderIsPrime(S);
    CallNames(S, c, cs);
    EnoughAsked(S, c);
    FirstRoundOk(S, c, cs);
    IssueAfterOk(S, c, cs, claims);
    s := IssueAfter(S, c, cs, claims);
    IssueNames(S, c, cs, claims);
    RelayIs(S, c, cs, claims);
    CallsExact(S, s, c.ch.clocks);
    at, rt := GatewaySynthesises(S, s);
  }

  lemma CallNames(S: Suite, c: Call, cs: seq<int>)
    requires IsSuite(S) && CallOk(S, c, cs)
    ensures Distinct(c.ids) && (RoundsExist(S, c) ==> AccessRoundOf(S, c).1.Ok?)
  {
    hide IsSuite, AccessRoundOf, RefreshRoundOf;
  }

  lemma IssueNames(S: Suite, c: Call, cs: seq<int>, claims: Identity)
    requires RoundsExist(S, c)
    ensures var s := IssueAfter(S, c, cs, claims);
            s.cs == cs && s.issuer == c.issuer && s.keyId == c.keyId && s.claims == claims && s.iat == c.ch.iat
            && s.jti == c.ch.jti
  {
    hide AccessRoundOf, RefreshRoundOf;
  }

  /**
   * Token issue end to end: whenever the gateway returns tokens, both are for the identity in the
   * credential, the access token verifies under the group key exactly while it lives, and every node
   * accepts the refresh token, for that identity, exactly while it lives.
   */
  lemma TokensEndToEnd(S: Suite, c: Call, cs: seq<int>, verifier: Settings, now: int)
    requires IsSuite(S) && CallOk(S, c, cs) && Relay(S, c).Ok? && cs != []
    requires c.issuer != "" && verifier.issuer == c.issuer && verifier.groupPublicKey == S.ed.mul(cs[0], S.ed.base)
    ensures DecodeCredentialClaims(S, c.credential).Ok?
    ensures var tokens, claims := Relay(S, c).value, DecodeCredentialClaims(S, c.credential).value;
            var at, rt := AccessFor(claims, c.ch.iat, c.ch.jti), RefreshFor(claims, c.ch.iat);
            && SignedBytes(tokens.accessToken) == Some(Message(at, c.issuer, c.keyId))
            && SignedBytes(tokens.refreshToken) == Some(Message(rt, c.issuer, c.keyId))
            && (VerifyJwt(S, tokens.accessToken, verifier.groupPublicKey, now).Ok? <==> Alive(at, now))
            && (VerifyRefreshToken(S, verifier, tokens.refreshToken, now).Ok? <==> Alive(rt, now))
            && (Alive(rt, now) ==> VerifyRefreshToken(S, verifier, tokens.refreshToken, now).value.id == claims)
  {
    hide *;
    OrderIsPrime(S);
    RelayNeedsRounds(S, c);
    var claims := DecodeCredentialClaims(S, c.credential).value;
    DecodedIsFull(S, c.credential);
    var s, at, rt := TokenIssueExact(S, c, cs, claims);
    IssuedFacts(claims, c.ch.iat, c.ch.jti);
    TokenTextSigned(AccessFor(claims, c.ch.iat, c.ch.jti), c.issuer, c.keyId, at);
    TokenTextSigned(RefreshFor(claims, c.ch.iat), c.issuer, c.keyId, rt);
    TokenVerifies(S, AccessFor(claims, c.ch.iat, c.ch.jti), c.issuer, c.keyId, at, verifier.groupPublicKey, now);
    ReadableKinds(RefreshFor(claims, c.ch.iat), verifier.issuer);
    RefreshAccepted(S, verifier, RefreshFor(claims, c.ch.iat), c.keyId, rt, now);
  }

  lemma DecodedIsFull(S: Suite, credential: string)
    requires DecodeCredentialClaims(S, credential).Ok?
    ensures FullIdentity(DecodeCredentialClaims(S, credential).value)
  {
    hide SplitDots;
  }

  lemma IssuedFacts(claims: Identity, iat: int, jti: string)
    ensures AccessFor(claims, iat, jti).id == claims && RefreshFor(claims, iat).id == claims
    ensures RefreshFor(claims, iat).Refresh? && AccessFor(claims, iat, jti).Access?
    ensures 0 < RefreshFor(claims, iat).exp - RefreshFor(claims, iat).iat <= MAX_REFRESH_LIFETIME
  {
  }

  // ---- Another key id at the gateway -------------------------------------------------

  /** The group commitment of a round exists over every message. */
  lemma RoundCommits(S: Suite, s: Issue, roundId: string, t: Token, commitments: seq<Commitment>, msg: Bytes)
    requires IsSuite(S) && IssueOk(S, s) && RoundOf(s, roundId, t, commitments)
    ensures Order(S) > 0 && GroupCommitment(S, msg, commitments).Ok?
  {
    hide IssueOk, Deployed, OpenFor, GroupCommitment, Quorum;
    OrderIsPrime(S);
    RoundQuorum(S, s, roundId, t, commitments);
    CommitmentIsMultiple(S, SignersOf(s.peers, roundId, commitments), msg, commitments);
  }

  /** The gateway puts tokens together under any key id of its own. */
  lemma SynthesisesAnyway(S: Suite, s: Issue, keyId: string) returns (accessSignature: Bytes, refreshSignature: Bytes)
    requires IsSuite(S) && IssueOk(S, s)
    ensures Order(S) > 0
    ensures Synthesise(S, s.claims, s.issuer, keyId, s.iat, s.jti, s.access, s.refresh, AllShares(S, s))
            == Ok(Issued(TokenText(AccessFor(s.claims, s.iat, s.jti), s.issuer, keyId, accessSignature),
                         TokenText(RefreshFor(s.claims, s.iat), s.issuer, keyId, refreshSignature),
                         ACCESS_TOKEN_LIFETIME, s.claims.scope, s.claims.jkt))
  {
    hide *;
    OrderIsPrime(S);
    AreRounds(s);
    TokenParts(s.claims, s.issuer, s.iat, s.jti);
    var at, rt, shares := AccessFor(s.claims, s.iat, s.jti), RefreshFor(s.claims, s.iat), AllShares(S, s);
    var ap := AccessPayload(s.claims, s.issuer, s.iat, s.iat + ACCESS_TOKEN_LIFETIME, s.jti);
    var rp := RefreshPayload(s.claims, s.issuer, s.iat, s.iat + REFRESH_TOKEN_LIFETIME);
    RoundCommits(S, s, s.ar, at, s.access.commitments, Message(at, s.issuer, keyId));
    RoundCommits(S, s, s.rr, rt, s.refresh.commitments, Message(rt, s.issuer, keyId));
    AssembledText(S, at, s.issuer, keyId, Header("at+jwt", keyId), ap, s.access.commitments, AccessShares(shares));
    AssembledText(S, rt, s.issuer, keyId, Header("refresh+jwt", keyId), rp, s.refresh.commitments,
                  RefreshShares(shares));
    BothTokens(S, s.claims, s.issuer, keyId, s.iat, s.jti, s.access, s.refresh, shares);
    accessSignature :=
      Aggregate(GroupCommitment(S, Message(at, s.issuer, keyId), s.access.commitments).value, AccessShares(shares),
                Order(S));
    refreshSignature :=
      Aggregate(GroupCommitment(S, Message(rt, s.issuer, keyId), s.refresh.commitments).value, RefreshShares(shares),
                Order(S));
  }

  lemma BothTokens(S: Suite, claims: Identity, issuer: string, keyId: string, iat: int, jti: string, access: Round,
                   refresh: Round, shares: seq<Shares>)
    requires Order(S) > 0
    ensures var at := AssembleToken(S, Header("at+jwt", keyId),
                                    AccessPayload(claims, issuer, iat, iat + ACCESS_TOKEN_LIFETIME, jti),
                                    access.commitments, AccessShares(shares));
            var rt := AssembleToken(S, Header("refresh+jwt", keyId),
                                    RefreshPayload(claims, issuer, iat, iat + REFRESH_TOKEN_LIFETIME),
                                    refresh.commitments, RefreshShares(shares));
            at.Ok? && rt.Ok? ==>
              Synthesise(S, claims, issuer, keyId, iat, jti, access, refresh, shares)
              == Ok(Issued(at.value, rt.value, ACCESS_TOKEN_LIFETIME, claims.scope, claims.jkt))
  {
    hide AssembleToken, AccessPayload, RefreshPayload, Header, AccessShares, RefreshShares;
  }

  lemma SameIssue(S: Suite, c: Call, nodeKeyId: string, cs: seq<int>, claims: Identity)
    requires RoundsExist(S, c)
    ensures RoundsExist(S, c.(keyId := nodeKeyId))
    ensures IssueAfter(S, c.(keyId := nodeKeyId), cs, claims) == IssueAfter(S, c, cs, claims).(keyId := nodeKeyId)
    ensures IssueRequest(IssueAfter(S, c.(keyId := nodeKeyId), cs, claims))
            == IssueRequest(IssueAfter(S, c, cs, claims))
  {
    hide CommitAll, Collect, TokenRequest;
  }

  /** No node with the one key id ever signs the bytes of a token with another. */
  lemma OtherBytes(t: Token, issuer: string, keyId: string, nodeKeyId: string, signature: Bytes)
    requires keyId != nodeKeyId
    ensures forall t': Token, issuer': string ::
              SignedBytes(TokenText(t, issuer, keyId, signature)) != Some(Message(t', issuer', nodeKeyId))
  {
    hide Message, TokenText, SignedBytes;
    TokenTextSigned(t, issuer, keyId, signature);
    forall t': Token, issuer': string
      ensures Message(t, issuer, keyId) != Message(t', issuer', nodeKeyId)
    {
      if Message(t, issuer, keyId) == Message(t', issuer', nodeKeyId) {
        MessageInjective(t, issuer, keyId, t', issuer', nodeKeyId);
      }
    }
  }

  /**
   * A gateway with another key id than its nodes still returns tokens exactly when every participant
   * accepts; but their signing inputs are bytes that no node with the nodes' key id ever signs.
   */
  lemma OtherKeyId(S: Suite, c: Call, nodeKeyId: string, cs: seq<int>, claims: Identity)
      returns (s: Issue, at: Bytes, rt: Bytes)
    requires IsSuite(S) && CallOk(S, c.(keyId := nodeKeyId), cs) && RoundsExist(S, c)
    requires DecodeCredentialClaims(S, c.credential) == Ok(claims)
    ensures Order(S) > 0 && RoundsExist(S, c.(keyId := nodeKeyId))
    ensures s == IssueAfter(S, c.(keyId := nodeKeyId), cs, claims) && IssueOk(S, s)
    ensures Relay(S, c).Ok? <==> AllAccept(S, s, c.ch.clocks)
    ensures Relay(S, c).Ok? ==>
              Relay(S, c) == Ok(Issued(TokenText(AccessFor(claims, c.ch.iat, c.ch.jti), c.issuer, c.keyId, at),
                                       TokenText(RefreshFor(claims, c.ch.iat), c.issuer, c.keyId, rt),
                                       ACCESS_TOKEN_LIFETIME, claims.scope, claims.jkt))
    ensures Relay(S, c).Ok? && c.keyId != nodeKeyId ==>
              forall t: Token, issuer: string ::
                SignedBytes(Relay(S, c).value.accessToken) != Some(Message(t, issuer, nodeKeyId))
                && SignedBytes(Relay(S, c).value.refreshToken) != Some(Message(t, issuer, nodeKeyId))
  {
    hide *;
    OrderIsPrime(S);
    var n := c.(keyId := nodeKeyId);
    SameIssue(S, c, nodeKeyId, cs, claims);
    CallNames(S, n, cs);
    EnoughAsked(S, n);
    FirstRoundOk(S, n, cs);
    IssueAfterOk(S, n, cs, claims);
    s := IssueAfter(S, n, cs, claims);
    IssueNames(S, n, cs, claims);
    RelayIs(S, c, cs, claims);
    CallsExact(S, s, c.ch.clocks);
    at, rt := SynthesisesAnyway(S, s, c.keyId);
    IssueNames(S, c, cs, claims);
    if c.keyId != nodeKeyId {
      OtherBytes(AccessFor(claims, c.ch.iat, c.ch.jti), c.issuer, c.keyId, nodeKeyId, at);
      OtherBytes(RefreshFor(claims, c.ch.iat), c.issuer, c.keyId, nodeKeyId, rt);
    }
  }

  // ---- What a credential buys --------------------------------------------------------

  /** A reading of a node's clock at which a credential and a proof for its key are acceptable. */
  predicate GoodClock(S: Suite, t: Token, issuer: string, dpopProof: string, iat: int, clock: Option<int>)
    requires Order(S) > 0
  {
    clock.Some? && Alive(t, clock.value) && -CLOCK_SKEW <= clock.value - iat <= CLOCK_SKEW
    && Dpop.VerifyProof(S, dpopProof, "POST", issuer + "/token", t.id.jkt, CLOCK_SKEW, clock.value).Ok?
  }

  /** A credential of the group for the given grant: what sign-on and token issue produce. */
  predicate Spendable(t: Token, grant: Grant)
  {
    FullIdentity(t.id)
    && match grant
       case AuthorizationCode => t.Assertion? && 0 < t.exp - t.iat <= MAX_ASSERTION_LIFETIME
       case RefreshToken => t.Refresh? && 0 < t.exp - t.iat <= MAX_REFRESH_LIFETIME
  }

  lemma PresentedAccepted(S: Suite, cfg: Settings, req: SignRequest, t: Token, kid: string, signature: Bytes, now: int)
    requires IsSuite(S) && Spendable(t, req.grant) && cfg.issuer != "" && Alive(t, now)
    requires Verifies(S, signature, Message(t, cfg.issuer, kid), cfg.groupPublicKey)
    requires Presented(req) == TokenText(t, cfg.issuer, kid, signature)
    ensures Order(S) > 0 && VerifyPresented(S, cfg, req, now).Ok? && VerifyPresented(S, cfg, req, now).value.id == t.id
  {
    hide IsSuite, IsPrime, IsGroup, VerifyAssertion, VerifyRefreshToken, Verifies, Message, TokenText, Presented, Alive,
      FullIdentity;
    OrderIsPrime(S);
    ReadableKinds(t, cfg.issuer);
    if req.grant.AuthorizationCode? {
      AssertionAccepted(S, cfg, t, kid, signature, now);
    } else {
      RefreshAccepted(S, cfg, t, kid, signature, now);
    }
  }

  /** All checks of a node, for the gateway's own claims. */
  lemma ChecksPass(S: Suite, cfg: Settings, st: State, ar: string, rr: string, grant: Grant, credential: string,
                   dpopProof: string, iat: int, jti: string, access: Round, refresh: Round, at: int)
    requires Order(S) > 0 && ar != rr && jti != "" && ar in st.active && rr in st.active
    requires -CLOCK_SKEW <= at - iat <= CLOCK_SKEW
    requires var v :=
      VerifyPresented(S, cfg, TokenRequest(grant, credential, dpopProof, iat, jti, access, refresh), at);
             v.Ok? && Dpop.VerifyProof(S, dpopProof, "POST", cfg.issuer + "/token", v.value.id.jkt, CLOCK_SKEW, at).Ok?
    ensures CheckSign(S, cfg, st, ar, rr, TokenRequest(grant, credential, dpopProof, iat, jti, access, refresh), at).Ok?
  {
    hide VerifyPresented, Dpop.VerifyProof;
  }

  /** The request of the gateway for one issue, at one node. */
  datatype Spending = Spending(cfg: Settings, st: State, ar: string, rr: string, grant: Grant, t: Token, kid: string,
                               signature: Bytes, dpopProof: string, iat: int, jti: string, access: Round,
                               refresh: Round)

  ghost predicate SpendingOk(S: Suite, s: Spending)
    requires Order(S) > 0
  {
    && Spendable(s.t, s.grant) && s.cfg.issuer != "" && s.ar != s.rr && s.jti != "" && s.ar in s.st.active
       && s.rr in s.st.active
    && Verifies(S, s.signature, Message(s.t, s.cfg.issuer, s.kid), s.cfg.groupPublicKey)
  }

  function SpendingRequest(s: Spending): SignRequest
  {
    TokenRequest(s.grant, TokenText(s.t, s.cfg.issuer, s.kid, s.signature), s.dpopProof, s.iat, s.jti, s.access,
                 s.refresh)
  }

  predicate SpendingAccepted(S: Suite, s: Spending, at: int)
    requires Order(S) > 0
  {
    CheckSign(S, s.cfg, s.st, s.ar, s.rr, SpendingRequest(s), at).Ok?
  }

  /**
   * How long one proof serves one credential: if it was accepted for the credential's key once, a node
   * accepts credential and proof again exactly while the credential lives, the token's iat is near, and
   * the proof's iat is fresh; so a proof without a numeric iat serves for the whole life of the credential.
   */
  lemma ProofServes(S: Suite, s: Spending, once: int, at: int)
    requires IsSuite(S) && SpendingOk(S, s)
    requires Dpop.VerifyProof(S, s.dpopProof, "POST", TokenEndpoint(s.cfg), s.t.id.jkt, CLOCK_SKEW, once).Ok?
    ensures SpendingAccepted(S, s, at)
            <==> Alive(s.t, at) && -CLOCK_SKEW <= at - s.iat <= CLOCK_SKEW
                 && Dpop.Fresh(S, Dpop.ProofIat(S, s.dpopProof), at, CLOCK_SKEW)
    ensures Dpop.Undated(S, Dpop.ProofIat(S, s.dpopProof)) ==>
              (SpendingAccepted(S, s, at) <==> Alive(s.t, at) && -CLOCK_SKEW <= at - s.iat <= CLOCK_SKEW)
  {
    hide IsSuite, VerifyPresented, Dpop.VerifyProof, Dpop.ProofIat, Verifies, Message, TokenText, Spendable, CheckSign,
      Alive, TokenRequest, Presented;
    OrderIsPrime(S);
    var text := TokenText(s.t, s.cfg.issuer, s.kid, s.signature);
    var req := SpendingRequest(s);
    Dpop.AcceptedAgain(S, s.dpopProof, "POST", TokenEndpoint(s.cfg), s.t.id.jkt, CLOCK_SKEW, once, at);
    PresentsCredential(s.grant, text, s.dpopProof, s.iat, s.jti, s.access, s.refresh);
    if Alive(s.t, at) {
      PresentedAccepted(S, s.cfg, req, s.t, s.kid, s.signature, at);
      if -CLOCK_SKEW <= at - s.iat <= CLOCK_SKEW && Dpop.Fresh(S, Dpop.ProofIat(S, s.dpopProof), at, CLOCK_SKEW) {
        ChecksPass(S, s.cfg, s.st, s.ar, s.rr, s.grant, text, s.dpopProof, s.iat, s.jti, s.access, s.refresh, at);
      }
    }
    if SpendingAccepted(S, s, at) {
      ChecksNeed(S, s.cfg, s.st, s.ar, s.rr, req, at);
      PresentedAlive(S, s.cfg, req, s.t, s.kid, s.signature, at);
    }
  }

  lemma ChecksNeed(S: Suite, cfg: Settings, st: State, ar: string, rr: string, req: SignRequest, at: int)
    requires Order(S) > 0 && CheckSign(S, cfg, st, ar, rr, req, at).Ok?
    ensures var v := VerifyPresented(S, cfg, req, at);
            v.Ok? && -CLOCK_SKEW <= at - req.iat <= CLOCK_SKEW
            && Dpop.VerifyProof(S, req.dpopProof, "POST", TokenEndpoint(cfg), v.value.id.jkt, CLOCK_SKEW, at).Ok?
  {
    hide VerifyPresented, Dpop.VerifyProof;
  }

  lemma PresentedAlive(S: Suite, cfg: Settings, req: SignRequest, t: Token, kid: string, signature: Bytes, now: int)
    requires IsSuite(S) && Spendable(t, req.grant) && VerifyPresented(S, cfg, req, now).Ok?
    requires Verifies(S, signature, Message(t, cfg.issuer, kid), cfg.groupPublicKey)
    requires Presented(req) == TokenText(t, cfg.issuer, kid, signature)
    ensures Alive(t, now) && VerifyPresented(S, cfg, req, now).value.id == t.id
  {
    hide IsSuite, VerifyAssertion, VerifyRefreshToken, Verifies, Message, TokenText, Presented, Alive, FullIdentity,
      Readable;
    OrderIsPrime(S);
    if req.grant.AuthorizationCode? {
      AssertionAccepted(S, cfg, t, kid, signature, now);
    } else {
      RefreshAccepted(S, cfg, t, kid, signature, now);
    }
  }

  /** One participant accepts a good credential. */
  lemma ParticipantAccepts(S: Suite, s: Issue, k: nat, clock: Option<int>, t: Token, kid: string, signature: Bytes)
    requires IsSuite(S) && IssueOk(S, s) && k < |s.access.commitments|
    requires s.ar != s.rr && s.jti != "" && s.issuer != "" && s.cs != []
    requires Spendable(t, s.grant) && GoodClock(S, t, s.issuer, s.dpopProof, s.iat, clock)
    requires Verifies(S, signature, Message(t, s.issuer, kid), S.ed.mul(s.cs[0], S.ed.base))
    requires s.credential == TokenText(t, s.issuer, kid, signature)
    ensures AcceptsAt(S, s, k, clock)
  {
    hide IsSuite, IssueOk, CheckSign, VerifyPresented, Verifies, Message, TokenText, Presented, Alive, Spendable,
      Dpop.VerifyProof, FindCommitment, TokenRequest;
    OrderIsPrime(S);
    SamePlace(S, s, k);
    PublicKeyAt(S, s, k);
    PresentsCredential(s.grant, s.credential, s.dpopProof, s.iat, s.jti, s.access, s.refresh);
    var p := PeerAt(S, s, k);
    PresentedAccepted(S, p.cfg, IssueRequest(s), t, kid, signature, clock.value);
    ChecksPass(S, p.cfg, p.st, s.ar, s.rr, s.grant, s.credential, s.dpopProof, s.iat, s.jti, s.access, s.refresh,
               clock.value);
  }

  lemma PublicKeyAt(S: Suite, s: Issue, k: nat)
    requires IsSuite(S) && IssueOk(S, s) && k < |s.access.commitments|
    ensures HasRound(s.peers, s.ar, s.access.commitments[k].nodeId) && s.cs != []
    ensures PeerAt(S, s, k).cfg.groupPublicKey == S.ed.mul(s.cs[0], S.ed.base)
  {
    hide IsSuite, IsPrime, IsGroup, OpenFor, DecodeCredentialClaims, FindCommitment, Eval;
    OrderIsPrime(S);
    SamePlace(S, s, k);
    assert DeployedNode(S, s.peers[s.access.commitments[k].nodeId].cfg, s.access.commitments[k].nodeId, s.cs, s.issuer,
                        s.keyId);
  }

  /** The gateway reads a signed credential's identity without verifying it. */
  lemma SpendableDecodes(S: Suite, t: Token, grant: Grant, issuer: string, kid: string, signature: Bytes,
                         publicKey: Bytes)
    requires IsSuite(S) && Spendable(t, grant) && issuer != ""
    requires Verifies(S, signature, Message(t, issuer, kid), publicKey)
    ensures DecodeCredentialClaims(S, TokenText(t, issuer, kid, signature)) == Ok(t.id)
  {
    hide IsSuite, IsPrime, IsGroup, VerifyCredential, Verifies, Message, TokenText, DecodeCredentialClaims,
      FullIdentity, Typ;
    OrderIsPrime(S);
    var cfg := Settings(0, 0, publicKey, issuer, kid);
    assert Alive(t, t.exp);
    ReadableKinds(t, issuer);
    CredentialAccepted(S, cfg, t, kid, signature, Typ(t), t.exp);
    GatewayReadsSame(S, cfg, TokenText(t, issuer, kid, signature), Typ(t), t.exp);
  }

  /** Every participant's clock is good for the credential. */
  ghost predicate ClocksGood(S: Suite, c: Call, t: Token, n: nat)
    requires Order(S) > 0
  {
    forall k :: 0 <= k < n ==> GoodClock(S, t, c.issuer, c.dpopProof, c.ch.iat, c.ch.clocks(k))
  }

  /**
   * An assertion or refresh token of the group, presented while it lives with a fresh proof by its key,
   * buys a pair of tokens for its identity, from any deployment of the same dealing.
   */
  lemma CredentialBuysTokens(S: Suite, c: Call, cs: seq<int>, t: Token, kid: string, signature: Bytes)
    requires IsSuite(S) && CallOk(S, c, cs) && RoundsExist(S, c) && cs != []
    requires Spendable(t, c.grant) && c.issuer != "" && c.ch.jti != "" && ClocksGood(S, c, t, |c.ids|)
    requires Verifies(S, signature, Message(t, c.issuer, kid), S.ed.mul(cs[0], S.ed.base))
    requires c.credential == TokenText(t, c.issuer, kid, signature)
    ensures Relay(S, c).Ok? && DecodeCredentialClaims(S, c.credential) == Ok(t.id)
  {
    hide *;
    OrderIsPrime(S);
    SpendableDecodes(S, t, c.grant, c.issuer, kid, signature, S.ed.mul(cs[0], S.ed.base));
    var s, at, rt := TokenIssueExact(S, c, cs, t.id);
    FewerThanAsked(S, c, cs);
    IssueNames(S, c, cs, t.id);
    RoundsDiffer(S, c, cs, t.id);
    GoodForIssue(S, c, cs, t, s);
    EveryoneAccepts(S, s, c.ch.clocks, t, kid, signature);
  }

  lemma GoodForIssue(S: Suite, c: Call, cs: seq<int>, t: Token, s: Issue)
    requires Order(S) > 0 && ClocksGood(S, c, t, |c.ids|) && |s.access.commitments| <= |c.ids|
    requires s.issuer == c.issuer && s.dpopProof == c.dpopProof && s.iat == c.ch.iat
    ensures forall k :: 0 <= k < |s.access.commitments| ==>
              GoodClock(S, t, s.issuer, s.dpopProof, s.iat, c.ch.clocks(k))
  {
    hide GoodClock;
  }

  lemma EveryoneAccepts(S: Suite, s: Issue, clocks: nat -> Option<int>, t: Token, kid: string, signature: Bytes)
    requires IsSuite(S) && IssueOk(S, s)
    requires s.ar != s.rr && s.jti != "" && s.issuer != "" && s.cs != [] && Spendable(t, s.grant)
    requires forall k :: 0 <= k < |s.access.commitments| ==> GoodClock(S, t, s.issuer, s.dpopProof, s.iat, clocks(k))
    requires Verifies(S, signature, Message(t, s.issuer, kid), S.ed.mul(s.cs[0], S.ed.base))
    requires s.credential == TokenText(t, s.issuer, kid, signature)
    ensures AllAccept(S, s, clocks)
  {
    hide IsSuite, IssueOk, GoodClock, Spendable, Verifies, Message, TokenText, AcceptsAt;
    OrderIsPrime(S);
    forall k | 0 <= k < |s.access.commitments|
      ensures AcceptsAt(S, s, k, clocks(k))
    {
      ParticipantAccepts(S, s, k, clocks(k), t, kid, signature);
    }
  }

  lemma RoundsDiffer(S: Suite, c: Call, cs: seq<int>, claims: Identity)
    requires IsSuite(S) && CallOk(S, c, cs) && RoundsExist(S, c)
    ensures var s := IssueAfter(S, c, cs, claims);
            s.ar != s.rr && s.grant == c.grant && s.credential == c.credential && s.dpopProof == c.dpopProof
            && s.access == AccessRoundOf(S, c).1.value
  {
    hide IsSuite, AccessRoundOf, RefreshRoundOf;
  }

  lemma FewerThanAsked(S: Suite, c: Call, cs: seq<int>)
    requires IsSuite(S) && CallOk(S, c, cs) && RoundsExist(S, c)
    ensures AccessRoundOf(S, c).1.Ok? && |AccessRoundOf(S, c).1.value.commitments| <= |c.ids|
  {
    hide IsSuite, CommitAll, Collect, RefreshRoundOf;
    CommitAllOutcomes(S, c.peers, c.ch.accessRound, c.ids, c.ch.accessDraws);
    CollectSmall(CommitAll(S, c.peers, c.ch.accessRound, c.ids, c.ch.accessDraws).1, false, c.threshold);
  }

  /** Refreshing again: the refresh token of one issue buys the next pair, for the same identity. */
  lemma RefreshAgain(S: Suite, c: Call, next: Call, cs: seq<int>)
    requires IsSuite(S) && CallOk(S, c, cs) && cs != [] && Relay(S, c).Ok?
    requires CallOk(S, next, cs) && RoundsExist(S, next) && next.grant.RefreshToken?
    requires next.issuer == c.issuer != "" && next.ch.jti != "" && next.credential == Relay(S, c).value.refreshToken
    requires DecodeCredentialClaims(S, c.credential).Ok? ==>
               ClocksGood(S, next, RefreshFor(DecodeCredentialClaims(S, c.credential).value, c.ch.iat), |next.ids|)
    ensures Relay(S, next).Ok? && DecodeCredentialClaims(S, next.credential) == DecodeCredentialClaims(S, c.credential)
  {
    hide *;
    OrderIsPrime(S);
    RelayNeedsRounds(S, c);
    var claims := DecodeCredentialClaims(S, c.credential).value;
    DecodedIsFull(S, c.credential);
    var s, at, rt := TokenIssueExact(S, c, cs, claims);
    RefreshSpendable(claims, c.ch.iat);
    CredentialBuysTokens(S, next, cs, RefreshFor(claims, c.ch.iat), c.keyId, rt);
  }

  lemma RefreshSpendable(claims: Identity, iat: int)
    requires FullIdentity(claims)
    ensures Spendable(RefreshFor(claims, iat), RefreshToken) && RefreshFor(claims, iat).id == claims
  {
  }

  /** The authorization code grant: the assertion of a sign-on buys the first pair of tokens. */
  lemma SignOnBuysTokens(S: Suite, t: SignOnFlow.Attempt, c: Call)
    requires IsSuite(S) && SignOnFlow.CanRelay(S, t)
    requires t.jkt != "" && t.o.clientId != "" && t.issuer != ""
    requires CallOk(S, c, t.cs) && RoundsExist(S, c) && c.grant.AuthorizationCode? && c.issuer == t.issuer
             && c.ch.jti != ""
    requires SignOnFlow.Finished(S, t) == Ok(c.credential)
    requires ClocksGood(S, c, SignOnFlow.AttemptToken(t), |c.ids|)
    ensures Relay(S, c).Ok?
    ensures DecodeCredentialClaims(S, c.credential) == Ok(Identity(t.a.sub, t.o.clientId, t.o.scope, t.jkt))
  {
    hide *;
    OrderIsPrime(S);
    var s, signature := SignOnFlow.SignOnExact(S, t);
    SignOnFlow.SceneNames(S, t);
    SignOnFlow.ClaimedFacts(t, t.d.now);
    AssertionSpendable(SignOnFlow.AttemptToken(t));
    CredentialBuysTokens(S, c, t.cs, SignOnFlow.AttemptToken(t), Client.KEY_ID, signature);
  }

  lemma AssertionSpendable(t: Token)
    requires t.Assertion? && FullIdentity(t.id) && 0 < t.exp - t.iat <= MAX_ASSERTION_LIFETIME
    ensures Spendable(t, AuthorizationCode)
  {
  }
}
