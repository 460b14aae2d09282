/**
 * Sign-on end to end: with the registered password, any non-zero blinding and any quorum of enough
 * dealt nodes, the browser rebuilds the signed bytes, decrypts every share, and assembles an assertion
 * that every node accepts while it lives.
 */
module SignOnFlow {
  import opened Arith
  import opened Seqs
  import opened Bytes
  import opened Interpolation
  import opened Json
  import opened Suites
  import opened Frost
  import opened Signing
  import opened Jwt
  import opened Tokens
  import opened Node
  import opened Gateway
  import opened Quorums
  import opened Federation
  import opened Deployment
  import opened Acceptance
  import opened Binding
  import opened Client
  import Shamir
  import Toprf
  import Utf8
  import Base64Url

  /** The assertion a sign-on is about. */
  function ClaimedToken(a: Account, jkt: string, o: SignOnOptions, now: int): Token
  {
    Assertion(Identity(a.sub, o.clientId, o.scope, jkt), o.nonce, now, now + ASSERTION_LIFETIME)
  }

  // ---- One node's answer -------------------------------------------------------------

  /** What an honest node's answer contains, for a share z over msg. */
  ghost predicate IsAnswerOf(S: Suite, resp: SignOnResponse, id: int, a: Account, u: UserRecord, body: SignOnBody,
                             z: int, msg: Bytes)
  {
    && resp.nodeId == id && resp.sub == u.sub
    && resp.toprfPartial == Base64Url.UrlEncode(Toprf.Evaluate(S, u.toprfKeyShare, S.unbase64(body.blinded)))
    && resp.ciphertext == Base64Url.UrlEncode(SealShare(S, u, id, body.sessionNonce, z, msg))
  }

  /** The share a node computed in its answer. */
  function NodeShare(S: Suite, p: Peer, roundId: string, msg: Bytes, req: SignOnRequest): Result<int>
    requires Order(S) > 0
  {
    if roundId !in p.st.active then Err(RoundNotFound)
    else SignatureShare(S, p.cfg.nodeId, p.st.active[roundId].nonces, p.cfg.secretKeyShare, msg, req.commitments,
                        p.cfg.groupPublicKey, req.allParticipants)
  }

  /** A node answers exactly when the request passes its checks, its point decodes and its share exists. */
  lemma NodeAnswers(S: Suite, p: Peer, roundId: string, req: SignOnRequest, c: Commitment, at: int)
    requires Order(S) > 0 && (req.username in p.st.users ==> |p.st.users[req.username].serverKey| == 32)
    ensures var r := SignOn(S, p.cfg, p.st, roundId, req, c, at).1;
            var check := CheckSignOn(p.cfg, p.st, roundId, req, at);
            && (r.Ok? <==> check.Ok? && S.ristretto.valid(S.unbase64(req.blinded))
                           && NodeShare(S, p, roundId,
                                        Message(AssertionOf(check.value, req), p.cfg.issuer, p.cfg.keyId), req).Ok?)
            && (r.Ok? ==>
                  var msg := Message(AssertionOf(check.value, req), p.cfg.issuer, p.cfg.keyId);
                  var z := NodeShare(S, p, roundId, msg, req).value;
                  && r.value.nodeId == p.cfg.nodeId && r.value.sub == check.value.sub
                  && r.value.toprfPartial
                     == Base64Url.UrlEncode(Toprf.Evaluate(S, check.value.toprfKeyShare, S.unbase64(req.blinded)))
                  && r.value.ciphertext
                     == Base64Url.UrlEncode(SealShare(S, check.value, p.cfg.nodeId, req.sessionNonce, z, msg)))
  {
    hide SignatureShare, Message, SealShare, Toprf.Evaluate, Base64Url.UrlEncode;
  }

  // ---- What the browser makes of the answers -----------------------------------------

  /** The browser rebuilds the nodes' bytes exactly when the nodes use its built-in key id. */
  lemma RebuiltExactly(a: Account, jkt: string, o: SignOnOptions, now: int, issuer: string, keyId: string,
                       relayed: Relayed)
    requires a.sub != "" && relayed.responses != [] && relayed.responses[0].sub == a.sub
    ensures keyId == KEY_ID
            <==> SigningInput(Header("JWT", KEY_ID), AssertionPayload(issuer, SubOf(relayed, o), jkt, o, now))
                 == Message(ClaimedToken(a, jkt, o, now), issuer, keyId)
  {
    var t := ClaimedToken(a, jkt, o, now);
    assert AssertionPayload(issuer, SubOf(relayed, o), jkt, o, now) == Payload(t, issuer);
    assert SigningInput(Header("JWT", KEY_ID), Payload(t, issuer)) == Message(t, issuer, KEY_ID);
    if keyId != KEY_ID && Message(t, issuer, KEY_ID) == Message(t, issuer, keyId) {
      MessageInjective(t, issuer, KEY_ID, t, issuer, keyId);
    }
  }

  /**
   * The browser reads the share out of an answer exactly with the node's key, the bytes the node signed and
   * the nonce of the session, or one whose hash begins alike.
   */
  lemma ShareOpens(S: Suite, h: Bytes, sessionNonce: Bytes, msg: Bytes, resp: SignOnResponse, u: UserRecord, z: int,
                   signed: Bytes, sealedNonce: Bytes)
    requires IsSuite(S)
    requires resp.ciphertext
             == Base64Url.UrlEncode(SealShare(S, u, resp.nodeId, Base64Url.UrlEncode(sealedNonce), z, signed))
    ensures OpenShare(S, h, sessionNonce, msg, resp)
            == if Toprf.DeriveServerKey(S, h, resp.nodeId) == u.serverKey && msg == signed
                  && (sessionNonce == sealedNonce
                      || NoncesCoincide(S, AeadInput(sessionNonce, resp.nodeId), AeadInput(sealedNonce, resp.nodeId)))
               then Ok(z) else Err(ShareNotDecrypted)
  {
    hide Base64Url.UrlEncode, Base64Url.UrlDecode, Toprf.DeriveServerKey, Text, Utf8.Encode, AeadNonce, NumText,
      AeadInput, NoncesCoincide;
    var key, nonce := u.serverKey, AeadNonce(S, sealedNonce, resp.nodeId);
    var text := Utf8.Encode(Text(ShareBundle(z)));
    NoncesAgree(S, sessionNonce, resp.nodeId, sealedNonce, resp.nodeId);
    Unbase64Of(S, sealedNonce);
    Base64Url.RoundTrip(S.seal(key, nonce, text, signed));
    Toprf.ServerKeyLength(S, h, resp.nodeId);
    AeadNonceLength(S, sessionNonce, resp.nodeId);
    assert SealLaw(S, key, nonce, text, signed, Toprf.DeriveServerKey(S, h, resp.nodeId),
                   AeadNonce(S, sessionNonce, resp.nodeId), msg);
    assert WellFormed(ShareBundle(z));
    assert ParseLaw(S, ShareBundle(z));
    assert BigIntLaw(S, z);
    assert Field(ShareBundle(z), "z_i") == Some(Str(NumText(z)));
  }

  lemma AeadNonceLength(S: Suite, sessionNonce: Bytes, id: int)
    requires IsSuite(S)
    ensures |AeadNonce(S, sessionNonce, id)| == 12
  {
    hide AeadInput;
    assert HashLaw(S, AeadInput(sessionNonce, id));
  }

  lemma {:induction false} SharesOpen(S: Suite, h: Bytes, sessionNonce: Bytes, msg: Bytes,
                                      responses: seq<SignOnResponse>, zs: seq<int>)
    requires |zs| == |responses|
    requires forall k :: 0 <= k < |zs| ==> OpenShare(S, h, sessionNonce, msg, responses[k]) == Ok(zs[k])
    ensures OpenShares(S, h, sessionNonce, msg, responses) == Ok(zs)
  {
    hide OpenShare;
    if zs != [] {
      SharesOpen(S, h, sessionNonce, msg, Front(responses), Front(zs));
      assert Front(zs) + [Last(zs)] == zs;
    }
  }

  /** When every answer either opens or fails at its tag, one failure fails the whole at the tag. */
  lemma {:induction false} SharesRefused(S: Suite, h: Bytes, sessionNonce: Bytes, msg: Bytes,
                                         responses: seq<SignOnResponse>, j: nat)
    requires j < |responses| && OpenShare(S, h, sessionNonce, msg, responses[j]).Err?
    requires forall k :: 0 <= k < |responses| ==> OpensOrRefuses(OpenShare(S, h, sessionNonce, msg, responses[k]))
    ensures OpenShares(S, h, sessionNonce, msg, responses) == Err(ShareNotDecrypted)
  {
    hide OpenShare;
    var f := Front(responses);
    if j < |f| {
      SharesRefused(S, h, sessionNonce, msg, f, j);
    } else {
      OnlyRefusals(S, h, sessionNonce, msg, f);
      assert OpensOrRefuses(OpenShare(S, h, sessionNonce, msg, responses[j]));
    }
  }

  predicate OpensOrRefuses(r: Result<int>) { r.Ok? || r == Err(ShareNotDecrypted) }

  lemma {:induction false} OnlyRefusals(S: Suite, h: Bytes, sessionNonce: Bytes, msg: Bytes,
                                        responses: seq<SignOnResponse>)
    requires forall k :: 0 <= k < |responses| ==> OpensOrRefuses(OpenShare(S, h, sessionNonce, msg, responses[k]))
    ensures OpenShares(S, h, sessionNonce, msg, responses).Ok?
            || OpenShares(S, h, sessionNonce, msg, responses) == Err(ShareNotDecrypted)
  {
    hide OpenShare;
    if responses != [] {
      OnlyRefusals(S, h, sessionNonce, msg, Front(responses));
      assert OpensOrRefuses(OpenShare(S, h, sessionNonce, msg, Last(responses)));
    }
  }

  lemma {:induction false} PartialsRead(S: Suite, responses: seq<SignOnResponse>, partials: seq<Toprf.Partial>)
    requires |partials| == |responses|
    requires forall k :: 0 <= k < |partials| ==>
               partials[k].id == responses[k].nodeId
               && responses[k].toprfPartial == Base64Url.UrlEncode(partials[k].point)
               && S.ristretto.valid(partials[k].point)
    ensures PartialsIn(S, responses) == Ok(partials)
  {
    hide Base64Url.UrlEncode, Base64Url.UrlDecode;
    if partials != [] {
      PartialsRead(S, Front(responses), Front(partials));
      Base64Url.RoundTrip(Last(partials).point);
      assert Front(partials) + [Last(partials)] == partials;
      assert Last(partials) == Toprf.Partial(Last(responses).nodeId, Last(partials).point);
    }
  }

  // ---- The round ---------------------------------------------------------------------

  /**
   * The parties of one sign-on: the states in which the nodes answer, the account, the claims, and the
   * collected round. The states are arbitrary but for the open round, so any other calls may have
   * happened in between.
   */
  datatype Scene = Scene(peers: map<int, Peer>, cs: seq<int>, a: Account, issuer: string, keyId: string, jkt: string,
                         o: SignOnOptions, d: Draws, roundId: string, sessionId: string, round: Round)

  ghost predicate SceneOk(S: Suite, s: Scene)
    requires IsSuite(S)
  {
    OrderIsPrime(S);
    && s.cs != [] && s.a.toprf != [] && s.d.r % Order(S) != 0
    && s.o.username == s.a.username && s.a.sub != ""
    && Deployed(S, s.peers, s.cs, s.issuer, s.keyId) && Kept(S, s.peers, s.a)
    && OpenFor(S, s.peers, s.roundId, s.round.commitments)
    && s.round.participants == CommitmentIds(s.round.commitments) && Distinct(s.round.participants)
    && |s.cs| <= |s.round.commitments|
  }

  function Asked(S: Suite, s: Scene): SignOnRequest
  {
    NodeRequest(Body(S, s.issuer, s.jkt, s.o, s.d), s.sessionId, s.round)
  }

  function SceneMessage(s: Scene): Bytes { Message(ClaimedToken(s.a, s.jkt, s.o, s.d.now), s.issuer, s.keyId) }

  /** What the scene says about participant k. */
  ghost predicate Participates(S: Suite, s: Scene, k: nat)
    requires IsSuite(S) && k < |s.round.commitments| && s.cs != [] && s.a.toprf != []
  {
    OrderIsPrime(S);
    var id := s.round.commitments[k].nodeId;
    && HasRound(s.peers, s.roundId, id) && s.a.username in s.peers[id].st.users
    && DeployedNode(S, s.peers[id].cfg, id, s.cs, s.issuer, s.keyId)
    && KeptFor(S, s.peers[id].st.users[s.a.username], id, s.a)
    && |s.peers[id].st.users[s.a.username].serverKey| == 32
  }

  lemma ParticipantOf(S: Suite, s: Scene, k: nat)
    requires IsSuite(S) && SceneOk(S, s) && k < |s.round.commitments|
    ensures Participates(S, s, k)
  {
    hide IsSuite, IsPrime, IsGroup, Toprf.DeriveServerKey, Toprf.Prf, Eval;
    OrderIsPrime(S);
    var id := s.round.commitments[k].nodeId;
    assert OpenCommitment(S, s.peers, s.roundId, s.round.commitments[k]);
    assert DeployedNode(S, s.peers[id].cfg, id, s.cs, s.issuer, s.keyId);
    assert KeptAt(S, s.peers[id].st, id, s.a);
    Toprf.ServerKeyLength(S, Toprf.Prf(S, Utf8.Encode(s.a.password), s.a.toprf[0]), id);
  }

  /** The share of participant k over the scene's message. */
  function SceneShare(S: Suite, s: Scene, k: nat): Result<int>
    requires Order(S) > 0 && k < |s.round.commitments| && s.round.commitments[k].nodeId in s.peers
  {
    NodeShare(S, s.peers[s.round.commitments[k].nodeId], s.roundId, SceneMessage(s), Asked(S, s))
  }

  /** The scene's request passes every check of participant k, and asks it to sign the scene's message. */
  lemma ParticipantChecks(S: Suite, s: Scene, k: nat, at: int)
    requires IsSuite(S) && k < |s.round.commitments| && s.cs != [] && s.a.toprf != [] && Participates(S, s, k)
    requires s.o.username == s.a.username && -CLOCK_SKEW <= at - s.d.now <= CLOCK_SKEW
    ensures var p := s.peers[s.round.commitments[k].nodeId];
            var u := p.st.users[s.a.username];
            && CheckSignOn(p.cfg, p.st, s.roundId, Asked(S, s), at) == Ok(u)
            && Message(AssertionOf(u, Asked(S, s)), p.cfg.issuer, p.cfg.keyId) == SceneMessage(s)
  {
    hide IsSuite, IsPrime, IsGroup, Message, DealtTo, Base64Url.UrlEncode, Toprf.Blind, Toprf.DeriveServerKey,
      Toprf.Prf, Eval;
  }

  /** Participant k answers with its share of the scene's message, whenever its clock is close enough. */
  lemma ParticipantAnswers(S: Suite, s: Scene, k: nat, at: int)
    requires IsSuite(S) && SceneOk(S, s) && k < |s.round.commitments|
    requires -CLOCK_SKEW <= at - s.d.now <= CLOCK_SKEW
    ensures Participates(S, s, k) && Order(S) > 0 && SceneShare(S, s, k).Ok?
    ensures var c := s.round.commitments[k];
            var p := s.peers[c.nodeId];
            var r := SignOn(S, p.cfg, p.st, s.roundId, Asked(S, s), c, at).1;
            r.Ok? && IsAnswerOf(S, r.value, c.nodeId, s.a, p.st.users[s.a.username], Body(S, s.issuer, s.jkt, s.o, s.d),
                                SceneShare(S, s, k).value, SceneMessage(s))
  {
    OrderIsPrime(S);
    ParticipantOf(S, s, k);
    ShareExists(S, s, k);
    BlindedReads(S, s);
    ParticipantChecks(S, s, k, at);
    hide IsSuite, IsPrime, IsGroup, SceneOk, Message, SceneMessage, SealShare, SignOn, CheckSignOn, NodeShare, KeptFor,
      DealtTo, Base64Url.UrlEncode, Toprf.Evaluate, Toprf.Blind, AssertionOf;
    var c := s.round.commitments[k];
    NodeAnswers(S, s.peers[c.nodeId], s.roundId, Asked(S, s), c, at);
  }

  lemma BlindedReads(S: Suite, s: Scene)
    requires IsSuite(S)
    ensures S.unbase64(Asked(S, s).blinded) == Toprf.Blind(S, Utf8.Encode(s.o.password), s.d.r)
    ensures S.ristretto.valid(S.unbase64(Asked(S, s).blinded))
  {
    hide Base64Url.UrlEncode, Toprf.HashToGroup;
    var pw := Utf8.Encode(s.o.password);
    Unbase64Of(S, Toprf.Blind(S, pw, s.d.r));
    Toprf.HashToGroupValid(S, pw);
    MulValid(S.ristretto, s.d.r, Toprf.HashToGroup(S, pw));
  }

  /** Commitments of a quorum decode, so every share exists, and is that of the quorum's signer. */
  lemma ShareExists(S: Suite, s: Scene, k: nat)
    requires IsSuite(S) && SceneOk(S, s) && k < |s.round.commitments|
    ensures Participates(S, s, k) && Order(S) > 0 && SceneShare(S, s, k).Ok?
    ensures forall j :: 0 <= j < |s.round.commitments| ==> HasRound(s.peers, s.roundId, s.round.commitments[j].nodeId)
    ensures SceneShare(S, s, k) == ShareOf(S, SignersOf(s.peers, s.roundId, s.round.commitments)[k], SceneMessage(s),
                                           s.round.commitments, S.ed.mul(s.cs[0], S.ed.base), s.round.participants)
  {
    hide IsSuite, IsPrime, IsGroup, Deployed, Kept, OpenFor, SceneMessage, KeptFor, GroupCommitment, SignatureShare;
    OrderIsPrime(S);
    ParticipantOf(S, s, k);
    SignersAreQuorum(S, s.peers, s.cs, s.issuer, s.keyId, s.roundId, s.round.commitments);
    var q := SignersOf(s.peers, s.roundId, s.round.commitments);
    var msg := SceneMessage(s);
    CommitmentIsMultiple(S, q, msg, s.round.commitments);
    var R := GroupCommitment(S, msg, s.round.commitments).value;
    ShareShape(S, q[k], msg, s.round.commitments, R, S.ed.mul(s.cs[0], S.ed.base), s.round.participants);
  }

  // ---- Completion --------------------------------------------------------------------

  ghost predicate AnswersScene(S: Suite, s: Scene, responses: seq<SignOnResponse>, zs: seq<int>)
    requires IsSuite(S) && SceneOk(S, s)
  {
    |responses| == |zs| == |s.round.commitments| &&
    forall k :: 0 <= k < |zs| ==> AnswerAt(S, s, responses, zs, k)
  }

  ghost predicate AnswerAt(S: Suite, s: Scene, responses: seq<SignOnResponse>, zs: seq<int>, k: nat)
    requires IsSuite(S) && SceneOk(S, s)
    requires |responses| == |zs| == |s.round.commitments| && k < |zs|
  {
    OrderIsPrime(S);
    && Participates(S, s, k) && SceneShare(S, s, k) == Ok(zs[k])
    && IsAnswerOf(S, responses[k], s.round.commitments[k].nodeId, s.a,
                  s.peers[s.round.commitments[k].nodeId].st.users[s.a.username],
                  Body(S, s.issuer, s.jkt, s.o, s.d), zs[k], SceneMessage(s))
  }

  predicate HasAccount(s: Scene, k: nat)
    requires k < |s.round.commitments|
  {
    var id := s.round.commitments[k].nodeId;
    id in s.peers && s.a.username in s.peers[id].st.users
  }

  /** The user's PRF key share at participant k. */
  function ToprfShareAt(s: Scene, k: nat): Shamir.Share
    requires k < |s.round.commitments| && HasAccount(s, k)
  {
    var id := s.round.commitments[k].nodeId;
    Shamir.Share(id, s.peers[id].st.users[s.a.username].toprfKeyShare.value)
  }

  function ToprfShares(s: Scene): (r: seq<Shamir.Share>)
    requires forall k :: 0 <= k < |s.round.commitments| ==> HasAccount(s, k)
    ensures |r| == |s.round.commitments| && forall k :: 0 <= k < |r| ==> r[k] == ToprfShareAt(s, k)
  {
    seq(|s.round.commitments|, k requires 0 <= k < |s.round.commitments| => ToprfShareAt(s, k))
  }

  /** What participant k contributes to the unblinding. */
  ghost predicate PartialAt(S: Suite, resp: SignOnResponse, share: Shamir.Share, blinded: Bytes)
    requires Order(S) > 0
  {
    && resp.nodeId == share.id && resp.toprfPartial == Base64Url.UrlEncode(Toprf.Evaluate(S, share, blinded))
    && S.ristretto.valid(Toprf.Evaluate(S, share, blinded))
    && 0 < share.id < Order(S)
  }

  lemma PartialOf(S: Suite, s: Scene, responses: seq<SignOnResponse>, zs: seq<int>, k: nat)
    requires IsSuite(S) && SceneOk(S, s) && AnswersScene(S, s, responses, zs) && k < |zs|
    ensures Order(S) > 0 && HasAccount(s, k)
    ensures PartialAt(S, responses[k], ToprfShareAt(s, k), Toprf.Blind(S, Utf8.Encode(s.o.password), s.d.r))
  {
    hide IsSuite, IsPrime, IsGroup, Deployed, Kept, OpenFor, KeptFor, Toprf.Blind, Eval, SealShare, SceneMessage,
      SceneShare, Base64Url.UrlEncode;
    OrderIsPrime(S);
    assert AnswerAt(S, s, responses, zs, k);
    BlindedReads(S, s);
    MulValid(S.ristretto, s.peers[s.round.commitments[k].nodeId].st.users[s.a.username].toprfKeyShare.value,
             Toprf.Blind(S, Utf8.Encode(s.o.password), s.d.r));
  }

  /** Unblinding the partials in the answers of distinct nodes, whatever their shares. */
  lemma AnswersUnblind(S: Suite, responses: seq<SignOnResponse>, shares: seq<Shamir.Share>, r: int, pw: Bytes)
    requires IsSuite(S) && r % Order(S) != 0
    requires |responses| == |shares| && shares != [] && Distinct(Shamir.Ids(shares))
    requires forall k :: 0 <= k < |shares| ==> PartialAt(S, responses[k], shares[k], Toprf.Blind(S, pw, r))
    ensures Order(S) > 0 && PartialsIn(S, responses).Ok? && S.ristretto.order > 0
    ensures Toprf.Unblinded(S, r, PartialsIn(S, responses).value)
            == Ok(S.ristretto.mul(Shamir.Weighted(Shamir.Ids(shares), shares, Order(S)), Toprf.HashToGroup(S, pw)))
  {
    hide *;
    OrderIsPrime(S);
    var blinded := Toprf.Blind(S, pw, r);
    var partials := seq(|shares|, k requires 0 <= k < |shares| =>
                          Toprf.Partial(shares[k].id, Toprf.Evaluate(S, shares[k], blinded)));
    SharesValid(S, responses, shares, blinded);
    SharesPartials(S, responses, shares, blinded, partials);
    PartialsRead(S, responses, partials);
    Shamir.QuorumInvertible(Shamir.Ids(shares), Order(S));
    Toprf.UnblindGives(S, r, partials, shares, Shamir.Weighted(Shamir.Ids(shares), shares, Order(S)), pw);
  }

  lemma SharesValid(S: Suite, responses: seq<SignOnResponse>, shares: seq<Shamir.Share>, blinded: Bytes)
    requires Order(S) > 0 && |responses| == |shares| && Distinct(Shamir.Ids(shares))
    requires forall k :: 0 <= k < |shares| ==> PartialAt(S, responses[k], shares[k], blinded)
    ensures ValidIds(Shamir.Ids(shares), Order(S))
  {
    hide Toprf.Evaluate, Base64Url.UrlEncode;
    forall k | 0 <= k < |shares|
      ensures 0 < shares[k].id < Order(S)
    {
      assert PartialAt(S, responses[k], shares[k], blinded);
    }
  }

  lemma SharesPartials(S: Suite, responses: seq<SignOnResponse>, shares: seq<Shamir.Share>, blinded: Bytes,
                       partials: seq<Toprf.Partial>)
    requires Order(S) > 0 && |responses| == |shares| == |partials|
    requires forall k :: 0 <= k < |shares| ==> PartialAt(S, responses[k], shares[k], blinded)
    requires forall k :: 0 <= k < |shares| ==>
               partials[k] == Toprf.Partial(shares[k].id, Toprf.Evaluate(S, shares[k], blinded))
    ensures forall k :: 0 <= k < |partials| ==>
              partials[k].id == responses[k].nodeId
              && responses[k].toprfPartial == Base64Url.UrlEncode(partials[k].point)
              && S.ristretto.valid(partials[k].point)
    ensures Toprf.AnswersTo(S, partials, shares, blinded)
  {
    hide Toprf.Evaluate, Base64Url.UrlEncode;
    forall k | 0 <= k < |shares|
      ensures partials[k].id == responses[k].nodeId
              && responses[k].toprfPartial == Base64Url.UrlEncode(partials[k].point)
              && S.ristretto.valid(partials[k].point)
    {
      assert PartialAt(S, responses[k], shares[k], blinded);
    }
  }

  /** Under one blinding, the request tells two typed passwords apart unless their points coincide. */
  lemma RequestTells(S: Suite, s: Scene, s': Scene)
    requires IsSuite(S) && s.d.r == s'.d.r && s.d.r % Order(S) != 0
    ensures Asked(S, s).blinded == Asked(S, s').blinded
            <==> s.o.password == s'.o.password
                 || Toprf.PointsCoincide(S, Utf8.Encode(s.o.password), Utf8.Encode(s'.o.password))
  {
    hide IsSuite, Toprf.Blind, Utf8.Encode, Toprf.PointsCoincide, Base64Url.UrlEncode;
    OrderIsPrime(S);
    var pw, pw' := Utf8.Encode(s.o.password), Utf8.Encode(s'.o.password);
    Toprf.BlindsAgree(S, pw, pw', s.d.r);
    Base64Url.RoundTrip(Toprf.Blind(S, pw, s.d.r));
    Base64Url.RoundTrip(Toprf.Blind(S, pw', s.d.r));
    if pw == pw' {
      Utf8.Injective(s.o.password, s'.o.password);
    }
  }

  lemma AllParticipate(S: Suite, s: Scene)
    requires IsSuite(S) && SceneOk(S, s)
    ensures forall k :: 0 <= k < |s.round.commitments| ==> HasAccount(s, k)
  {
    hide IsSuite, IsPrime, IsGroup, SceneOk, KeptFor, DeployedNode;
    OrderIsPrime(S);
    forall k | 0 <= k < |s.round.commitments|
      ensures HasAccount(s, k)
    {
      ParticipantOf(S, s, k);
    }
  }

  /** What the holders of the user's PRF key shares answered with them. */
  lemma SceneShares(S: Suite, s: Scene, responses: seq<SignOnResponse>, zs: seq<int>)
    requires IsSuite(S) && SceneOk(S, s) && AnswersScene(S, s, responses, zs)
    ensures Order(S) > 0 && forall k :: 0 <= k < |responses| ==>
              HasAccount(s, k)
              && PartialAt(S, responses[k], ToprfShareAt(s, k), Toprf.Blind(S, Utf8.Encode(s.o.password), s.d.r))
  {
    hide *;
    OrderIsPrime(S);
    AnswerCount(S, s, responses, zs);
    forall k | 0 <= k < |responses|
      ensures HasAccount(s, k)
      ensures PartialAt(S, responses[k], ToprfShareAt(s, k), Toprf.Blind(S, Utf8.Encode(s.o.password), s.d.r))
    {
      PartialOf(S, s, responses, zs, k);
    }
  }

  lemma AnswerCount(S: Suite, s: Scene, responses: seq<SignOnResponse>, zs: seq<int>)
    requires IsSuite(S) && SceneOk(S, s) && AnswersScene(S, s, responses, zs)
    ensures |responses| == |zs| == |s.round.commitments|
  {
    hide IsSuite, SceneOk, AnswerAt;
  }

  /** The scalar that the participants' PRF key shares combine to: the key, if they are shares of it by id. */
  ghost function SharedKey(S: Suite, s: Scene): int
    requires IsSuite(S) && SceneOk(S, s)
  {
    OrderIsPrime(S);
    AllParticipate(S, s);
    Shamir.Weighted(s.round.participants, ToprfShares(s), Order(S))
  }

  /** Unblinding the relayed partials gives the hashed password times the scalar that the shares combine to. */
  lemma PasswordRecovers(S: Suite, s: Scene, responses: seq<SignOnResponse>, zs: seq<int>)
    requires IsSuite(S) && SceneOk(S, s) && AnswersScene(S, s, responses, zs)
    ensures PartialsIn(S, responses).Ok? && S.ristretto.order > 0
    ensures Toprf.Unblinded(S, s.d.r, PartialsIn(S, responses).value)
            == Ok(S.ristretto.mul(SharedKey(S, s), Toprf.HashToGroup(S, Utf8.Encode(s.o.password))))
  {
    hide *;
    OrderIsPrime(S);
    AllParticipate(S, s);
    AnswerCount(S, s, responses, zs);
    SceneShares(S, s, responses, zs);
    SharesOfScene(S, s);
    AnswersUnblind(S, responses, ToprfShares(s), s.d.r, Utf8.Encode(s.o.password));
  }

  /**
   * The value that the quorum's shares give for the typed password is the one they give for a guess only
   * if the guess is right, the combined key is zero, or the points of the two passwords coincide: one
   * evaluation answers one guess.
   */
  lemma EvaluationBinds(S: Suite, s: Scene, guess: string)
    requires IsSuite(S) && SceneOk(S, s)
    ensures Order(S) > 0
    ensures var pw, pw' := Utf8.Encode(s.o.password), Utf8.Encode(guess);
            S.ristretto.mul(SharedKey(S, s), Toprf.HashToGroup(S, pw))
            == S.ristretto.mul(SharedKey(S, s), Toprf.HashToGroup(S, pw'))
            <==> s.o.password == guess || SharedKey(S, s) % Order(S) == 0 || Toprf.PointsCoincide(S, pw, pw')
  {
    hide IsSuite, IsGroup, IsPrime, SceneOk, SharedKey, Toprf.HashToGroup, Utf8.Encode, Toprf.PointsCoincide;
    OrderIsPrime(S);
    var pw, pw', k, G := Utf8.Encode(s.o.password), Utf8.Encode(guess), SharedKey(S, s), S.ristretto;
    if pw == pw' {
      Utf8.Injective(s.o.password, guess);
    }
    Toprf.PointsAgree(S, pw, pw');
    Toprf.HashToGroupValid(S, pw);
    Toprf.HashToGroupValid(S, pw');
    EqualMultiples(G, k, Toprf.HashToGroup(S, pw), Toprf.HashToGroup(S, pw'));
  }

  lemma SharesOfScene(S: Suite, s: Scene)
    requires IsSuite(S) && SceneOk(S, s)
    ensures Order(S) > 0 && s.d.r % Order(S) != 0 && s.round.commitments != []
    ensures forall k :: 0 <= k < |s.round.commitments| ==> HasAccount(s, k)
    ensures Shamir.Ids(ToprfShares(s)) == s.round.participants && Distinct(s.round.participants)
    ensures SharedKey(S, s) == Shamir.Weighted(s.round.participants, ToprfShares(s), Order(S))
    ensures ValidIds(s.round.participants, Order(S))
  {
    hide IsSuite, Deployed, Kept, OpenFor, HasAccount, Shamir.Weighted;
    OrderIsPrime(S);
    AllParticipate(S, s);
    ParticipantIds(S, s);
    assert Shamir.Ids(ToprfShares(s)) == s.round.participants;
  }

  lemma ParticipantIds(S: Suite, s: Scene)
    requires IsSuite(S) && SceneOk(S, s)
    ensures ValidIds(s.round.participants, Order(S))
  {
    hide IsSuite, IsPrime, IsGroup, KeptFor, OpenFor;
    OrderIsPrime(S);
    forall k | 0 <= k < |s.round.commitments|
      ensures 0 < s.round.commitments[k].nodeId < Order(S)
    {
      ParticipantOf(S, s, k);
    }
  }

  /** With shares dealt by node id, any large enough quorum combines them to the key. */
  lemma EnrolledShares(S: Suite, s: Scene)
    requires IsSuite(S) && SceneOk(S, s) && Order(S) > 0
    requires s.a.toprf != [] && Enrolled(S, s.peers, s.a) && |s.a.toprf| <= |s.round.commitments|
    ensures SharedKey(S, s) % Order(S) == s.a.toprf[0] % Order(S)
  {
    hide *;
    OrderIsPrime(S);
    SharesOfScene(S, s);
    SharesEnrolled(S, s);
    Shamir.AnyQuorumReconstructs(ToprfShares(s), s.a.toprf, Order(S));
  }

  lemma SharesEnrolled(S: Suite, s: Scene)
    requires Order(S) > 0 && s.a.toprf != [] && Enrolled(S, s.peers, s.a)
    requires forall k :: 0 <= k < |s.round.commitments| ==> HasAccount(s, k)
    ensures Shamir.OnPolynomial(ToprfShares(s), s.a.toprf, Order(S))
  {
    hide Eval, KeptFor;
    forall k | 0 <= k < |s.round.commitments|
      ensures ToprfShareAt(s, k).value % Order(S) == Eval(s.a.toprf, ToprfShareAt(s, k).id) % Order(S)
    {
      assert HasAccount(s, k);
      var id := s.round.commitments[k].nodeId;
      assert EnrolledAt(S, s.peers[id].st, id, s.a);
    }
  }

  /** The PRF value that the typed password gives. */
  ghost function TypedPrf(S: Suite, s: Scene): Bytes
    requires IsSuite(S) && SceneOk(S, s)
  {
    Toprf.Prf(S, Utf8.Encode(s.o.password), SharedKey(S, s))
  }

  /** The key derived for participant k is the one that its node keeps. */
  ghost predicate KeyMatches(S: Suite, s: Scene, k: nat)
    requires IsSuite(S) && SceneOk(S, s) && k < |s.round.commitments|
  {
    ParticipantOf(S, s, k);
    var id := s.round.commitments[k].nodeId;
    Toprf.DeriveServerKey(S, TypedPrf(S, s), id) == s.peers[id].st.users[s.a.username].serverKey
  }

  ghost predicate KeysMatch(S: Suite, s: Scene)
    requires IsSuite(S) && SceneOk(S, s)
  {
    forall k :: 0 <= k < |s.round.commitments| ==> KeyMatches(S, s, k)
  }

  /** The PRF value that the account was registered with. */
  ghost function RegisteredPrf(S: Suite, s: Scene): Bytes
    requires s.a.toprf != []
  {
    Toprf.Prf(S, Utf8.Encode(s.a.password), s.a.toprf[0])
  }

  /** Two PRF values give participant k one key. */
  ghost predicate SameServerKey(S: Suite, s: Scene, k: nat, h: Bytes, h': Bytes)
    requires k < |s.round.commitments|
  {
    var id := s.round.commitments[k].nodeId;
    Toprf.DeriveServerKey(S, h, id) == Toprf.DeriveServerKey(S, h', id)
  }

  lemma KeyMatchesPrf(S: Suite, s: Scene, k: nat)
    requires IsSuite(S) && SceneOk(S, s) && k < |s.round.commitments| && s.a.toprf != []
    ensures KeyMatches(S, s, k) <==> SameServerKey(S, s, k, TypedPrf(S, s), RegisteredPrf(S, s))
  {
    hide IsSuite, SceneOk, TypedPrf, Toprf.Prf, Toprf.DeriveServerKey, DeployedNode;
    ParticipantOf(S, s, k);
  }

  /** The participant's hash input collides for two PRF values. */
  ghost predicate KeysCoincide(S: Suite, s: Scene, k: nat, h: Bytes, h': Bytes)
    requires k < |s.round.commitments|
  {
    var id := s.round.commitments[k].nodeId;
    Toprf.Coincide(S, Toprf.ServerInput(h, id), Toprf.ServerInput(h', id))
  }

  /** What goes into the PRF output hash, for the typed and for the registered password. */
  ghost function TypedInput(S: Suite, s: Scene): Bytes
    requires IsSuite(S) && SceneOk(S, s)
  {
    var pw := Utf8.Encode(s.o.password);
    Toprf.OutputInput(pw, S.ristretto.mul(SharedKey(S, s), Toprf.HashToGroup(S, pw)))
  }

  ghost function RegisteredInput(S: Suite, s: Scene): Bytes
    requires s.a.toprf != []
  {
    var pw := Utf8.Encode(s.a.password);
    Toprf.OutputInput(pw, S.ristretto.mul(s.a.toprf[0], Toprf.HashToGroup(S, pw)))
  }

  /**
   * The typed password is the registered one, and the shares combine to the registered key, or both
   * keys send the hashed password to the zero point.
   */
  ghost predicate Restored(S: Suite, s: Scene)
    requires IsSuite(S) && SceneOk(S, s)
  {
    OrderIsPrime(S);
    && s.o.password == s.a.password
    && (SharedKey(S, s) % Order(S) == s.a.toprf[0] % Order(S)
        || Toprf.HashToGroup(S, Utf8.Encode(s.a.password)) == S.ristretto.zero)
  }

  /**
   * The derived keys match exactly when password and key are the registered ones, or the hash collides,
   * either on the two PRF inputs or on the key inputs of every participant.
   */
  lemma KeysMatchExactly(S: Suite, s: Scene)
    requires IsSuite(S) && SceneOk(S, s)
    ensures s.a.toprf != []
    ensures KeysMatch(S, s)
            <==> || Restored(S, s)
                 || Toprf.Coincide(S, TypedInput(S, s), RegisteredInput(S, s))
                 || (forall k :: 0 <= k < |s.round.commitments| ==>
                       KeysCoincide(S, s, k, TypedPrf(S, s), RegisteredPrf(S, s)))
  {
    hide *;
    OrderIsPrime(S);
    SceneDistinct(S, s);
    var h, h' := TypedPrf(S, s), RegisteredPrf(S, s);
    PrfRestored(S, s);
    forall k | 0 <= k < |s.round.commitments|
      ensures KeyMatches(S, s, k) <==> h == h' || KeysCoincide(S, s, k, h, h')
    {
      KeyMatchesPrf(S, s, k);
      SameKeyExactly(S, s, k, h, h');
    }
    EveryKey(S, s, h == h', h, h');
  }

  lemma SameKeyExactly(S: Suite, s: Scene, k: nat, h: Bytes, h': Bytes)
    requires IsSuite(S) && k < |s.round.commitments|
    ensures SameServerKey(S, s, k, h, h') <==> h == h' || KeysCoincide(S, s, k, h, h')
  {
    hide IsSuite, Toprf.DeriveServerKey, Toprf.ServerInput, Toprf.Coincide;
    Toprf.ServerKeysEqual(S, h, h', s.round.commitments[k].nodeId);
  }

  /** A collision needs two inputs, so the cases do not overlap. */
  lemma EveryKey(S: Suite, s: Scene, same: bool, h: Bytes, h': Bytes)
    requires IsSuite(S) && SceneOk(S, s)
    requires forall k :: 0 <= k < |s.round.commitments| ==>
               (KeyMatches(S, s, k) <==> same || KeysCoincide(S, s, k, h, h'))
    ensures KeysMatch(S, s)
            <==> same || (forall k :: 0 <= k < |s.round.commitments| ==> KeysCoincide(S, s, k, h, h'))
  {
    hide IsSuite, SceneOk, KeyMatches, KeysCoincide;
  }

  /** The PRF values agree exactly when password and key are the registered ones, or by a collision. */
  lemma PrfRestored(S: Suite, s: Scene)
    requires IsSuite(S) && SceneOk(S, s)
    ensures s.a.toprf != []
    ensures TypedPrf(S, s) == RegisteredPrf(S, s)
            <==> Restored(S, s) || Toprf.Coincide(S, TypedInput(S, s), RegisteredInput(S, s))
  {
    hide IsSuite, IsGroup, IsPrime, SceneOk, SharedKey, Toprf.HashToGroup, Toprf.OutputInput, Toprf.Digest32,
      Utf8.Encode, Toprf.Coincide;
    OrderIsPrime(S);
    SceneDistinct(S, s);
    var pw, pw', G := Utf8.Encode(s.o.password), Utf8.Encode(s.a.password), S.ristretto;
    if pw == pw' {
      Utf8.Injective(s.o.password, s.a.password);
    }
    Toprf.HashToGroupValid(S, pw);
    Toprf.HashToGroupValid(S, pw');
    var x, x' := Toprf.HashToGroup(S, pw), Toprf.HashToGroup(S, pw');
    MulSame(G, SharedKey(S, s), s.a.toprf[0], x');
    MulLength(G, SharedKey(S, s), x);
    MulLength(G, s.a.toprf[0], x');
    Toprf.OutputsAgree(S, pw, G.mul(SharedKey(S, s), x), pw', G.mul(s.a.toprf[0], x'));
  }

  /** The registered password gives every key, when the shares combine to the registered one. */
  lemma RegisteredPasswordMatches(S: Suite, s: Scene)
    requires IsSuite(S) && SceneOk(S, s) && s.o.password == s.a.password
    requires Order(S) > 0 && s.a.toprf != [] && Enrolled(S, s.peers, s.a) && |s.a.toprf| <= |s.round.commitments|
    ensures KeysMatch(S, s)
  {
    hide *;
    EnrolledShares(S, s);
    IsRestored(S, s);
    KeysMatchExactly(S, s);
  }

  lemma IsRestored(S: Suite, s: Scene)
    requires IsSuite(S) && SceneOk(S, s) && s.o.password == s.a.password
    requires Order(S) > 0 && s.a.toprf != [] && SharedKey(S, s) % Order(S) == s.a.toprf[0] % Order(S)
    ensures Restored(S, s)
  {
    hide IsSuite, SceneOk, SharedKey, Toprf.HashToGroup;
  }

  /** The bytes the browser rebuilds. */
  function BrowserMessage(s: Scene): Bytes { Message(ClaimedToken(s.a, s.jkt, s.o, s.d.now), s.issuer, KEY_ID) }

  /** Answer k opens exactly with its key and the signed bytes, and otherwise fails at its tag. */
  lemma AnswerOpens(S: Suite, s: Scene, responses: seq<SignOnResponse>, zs: seq<int>, k: nat)
    requires IsSuite(S) && SceneOk(S, s) && AnswersScene(S, s, responses, zs) && k < |zs|
    ensures OpenShare(S, TypedPrf(S, s), s.d.sessionNonce, BrowserMessage(s), responses[k])
            == if KeyMatches(S, s, k) && BrowserMessage(s) == SceneMessage(s) then Ok(zs[k]) else Err(ShareNotDecrypted)
  {
    hide *;
    OrderIsPrime(S);
    AnswerCount(S, s, responses, zs);
    SealedAnswer(S, s, responses, zs, k);
    var u := s.peers[s.round.commitments[k].nodeId].st.users[s.a.username];
    ShareOpens(S, TypedPrf(S, s), s.d.sessionNonce, BrowserMessage(s), responses[k], u, zs[k], SceneMessage(s),
               s.d.sessionNonce);
  }

  /** What answer k contains, and which key its node keeps. */
  lemma SealedAnswer(S: Suite, s: Scene, responses: seq<SignOnResponse>, zs: seq<int>, k: nat)
    requires IsSuite(S) && SceneOk(S, s) && AnswersScene(S, s, responses, zs) && k < |zs|
    ensures |responses| == |zs| == |s.round.commitments| && HasAccount(s, k)
    ensures s.round.commitments[k].nodeId in s.peers && s.a.username in s.peers[s.round.commitments[k].nodeId].st.users
    ensures var u := s.peers[s.round.commitments[k].nodeId].st.users[s.a.username];
            && responses[k].ciphertext
               == Base64Url.UrlEncode(SealShare(S, u, responses[k].nodeId, Base64Url.UrlEncode(s.d.sessionNonce), zs[k],
                                                SceneMessage(s)))
            && (KeyMatches(S, s, k) <==> Toprf.DeriveServerKey(S, TypedPrf(S, s), responses[k].nodeId) == u.serverKey)
  {
    hide IsSuite, SceneOk, Deployed, Kept, OpenFor, SceneShare, SceneMessage, TypedPrf, Toprf.DeriveServerKey,
      SealShare, Base64Url.UrlEncode, KeptFor, DeployedNode, Toprf.Blind;
    OrderIsPrime(S);
    ParticipantOf(S, s, k);
    assert AnswerAt(S, s, responses, zs, k);
  }

  /** The decrypt loop gives the shares exactly when keys and bytes match. */
  lemma SharesOpenExactly(S: Suite, s: Scene, responses: seq<SignOnResponse>, zs: seq<int>)
    requires IsSuite(S) && SceneOk(S, s) && AnswersScene(S, s, responses, zs)
    ensures OpenShares(S, TypedPrf(S, s), s.d.sessionNonce, BrowserMessage(s), responses)
            == if KeysMatch(S, s) && BrowserMessage(s) == SceneMessage(s) then Ok(zs) else Err(ShareNotDecrypted)
  {
    hide IsSuite, IsPrime, IsGroup, SceneOk, AnswerAt, SceneMessage, BrowserMessage, TypedPrf, OpenShare, OpenShares,
      KeyMatches;
    SceneDistinct(S, s);
    var h, msg := TypedPrf(S, s), BrowserMessage(s);
    forall k | 0 <= k < |zs|
      ensures OpenShare(S, h, s.d.sessionNonce, msg, responses[k])
              == if KeyMatches(S, s, k) && msg == SceneMessage(s) then Ok(zs[k]) else Err(ShareNotDecrypted)
      ensures OpensOrRefuses(OpenShare(S, h, s.d.sessionNonce, msg, responses[k]))
    {
      AnswerOpens(S, s, responses, zs, k);
    }
    if KeysMatch(S, s) && msg == SceneMessage(s) {
      SharesOpen(S, h, s.d.sessionNonce, msg, responses, zs);
    } else {
      var j :| 0 <= j < |zs| && !(KeyMatches(S, s, j) && msg == SceneMessage(s));
      SharesRefused(S, h, s.d.sessionNonce, msg, responses, j);
    }
  }

  /** The aggregate of the shares verifies on the scene's message. */
  lemma SceneAggregates(S: Suite, s: Scene, responses: seq<SignOnResponse>, zs: seq<int>)
    requires IsSuite(S) && SceneOk(S, s) && AnswersScene(S, s, responses, zs)
    ensures Order(S) > 0
    ensures var R := GroupCommitment(S, SceneMessage(s), s.round.commitments);
            R.Ok? && Verifies(S, Aggregate(R.value, zs, Order(S)), SceneMessage(s), S.ed.mul(s.cs[0], S.ed.base))
  {
    hide IsSuite, IsPrime, IsGroup, Deployed, Kept, OpenFor, SceneMessage, SceneShare, Verifies, Aggregate,
      GroupCommitment, ShareOf;
    OrderIsPrime(S);
    SignersAreQuorum(S, s.peers, s.cs, s.issuer, s.keyId, s.roundId, s.round.commitments);
    var q, Y, msg := SignersOf(s.peers, s.roundId, s.round.commitments), S.ed.mul(s.cs[0], S.ed.base), SceneMessage(s);
    forall k | 0 <= k < |q|
      ensures ShareOf(S, q[k], msg, s.round.commitments, Y, s.round.participants) == Ok(zs[k])
    {
      assert AnswerAt(S, s, responses, zs, k);
      ShareExists(S, s, k);
    }
    AggregateVerifies(S, q, s.cs, zs, zs, msg, s.round.commitments, s.round.participants);
  }

  /** The signature of a finished sign-on. */
  function SceneSignature(S: Suite, s: Scene, zs: seq<int>): Bytes
    requires Order(S) > 0 && GroupCommitment(S, SceneMessage(s), s.round.commitments).Ok?
  {
    Aggregate(GroupCommitment(S, SceneMessage(s), s.round.commitments).value, zs, Order(S))
  }

  /** The bytes rebuilt from the answers of the scene. */
  lemma SceneRebuilt(S: Suite, s: Scene, responses: seq<SignOnResponse>, zs: seq<int>)
    requires IsSuite(S) && SceneOk(S, s) && AnswersScene(S, s, responses, zs)
    ensures var relayed := Relayed(s.sessionId, s.round.commitments, responses);
            var payload := AssertionPayload(s.issuer, SubOf(relayed, s.o), s.jkt, s.o, s.d.now);
            && payload == Payload(ClaimedToken(s.a, s.jkt, s.o, s.d.now), s.issuer)
            && SigningInput(Header("JWT", KEY_ID), payload) == BrowserMessage(s)
            && (BrowserMessage(s) == SceneMessage(s) <==> s.keyId == KEY_ID)
  {
    hide IsSuite, IsPrime, IsGroup, SigningInput, Header, Deployed, Kept, OpenFor, Eval, Toprf.Prf,
      Toprf.DeriveServerKey;
    OrderIsPrime(S);
    assert AnswerAt(S, s, responses, zs, 0);
    RebuiltExactly(s.a, s.jkt, s.o, s.d.now, s.issuer, s.keyId, Relayed(s.sessionId, s.round.commitments, responses));
  }

  /**
   * From the answers of an honest quorum the browser finishes with a valid assertion exactly when the
   * typed password gives the nodes' keys and the nodes use its built-in key id; otherwise it fails at
   * the tag of a ciphertext and nowhere else.
   */
  lemma BrowserExact(S: Suite, s: Scene, responses: seq<SignOnResponse>, zs: seq<int>)
    requires IsSuite(S) && SceneOk(S, s) && AnswersScene(S, s, responses, zs)
    ensures Order(S) > 0 && S.ristretto.order > 0
    ensures GroupCommitment(S, SceneMessage(s), s.round.commitments).Ok?
    ensures Verifies(S, SceneSignature(S, s, zs), SceneMessage(s), S.ed.mul(s.cs[0], S.ed.base))
    ensures SignedOn(S, s.issuer, s.jkt, s.o, s.d, Relayed(s.sessionId, s.round.commitments, responses))
            == if KeysMatch(S, s) && s.keyId == KEY_ID
               then Ok(TokenText(ClaimedToken(s.a, s.jkt, s.o, s.d.now), s.issuer, KEY_ID, SceneSignature(S, s, zs)))
               else Err(ShareNotDecrypted)
  {
    hide IsSuite, IsPrime, IsGroup, SceneOk, AnswersScene, GroupCommitment, OpenShares, PartialsIn, Toprf.Unblinded,
      Verifies, Aggregate, SigningInput, Segment, Assemble, Header, KeysMatch, BrowserMessage, SceneMessage,
      AssertionPayload, Payload, SubOf, SharedKey;
    OrderIsPrime(S);
    SceneAggregates(S, s, responses, zs);
    PasswordRecovers(S, s, responses, zs);
    SharesOpenExactly(S, s, responses, zs);
    SceneRebuilt(S, s, responses, zs);
  }

  // ---- Over the gateway --------------------------------------------------------------

  /** Committing to a round changes neither a node's settings nor its users. */
  lemma CommitKeepsDeployment(S: Suite, peers: map<int, Peer>, roundId: string, ids: seq<int>,
                              draws: nat -> Option<Nonces>, cs: seq<int>, issuer: string, keyId: string)
    requires Order(S) > 0 && cs != [] && Distinct(ids)
    requires Deployed(S, peers, cs, issuer, keyId)
    ensures Deployed(S, CommitAll(S, peers, roundId, ids, draws).0, cs, issuer, keyId)
    ensures forall a: Account :: a.toprf != [] && Kept(S, peers, a) ==>
              Kept(S, CommitAll(S, peers, roundId, ids, draws).0, a)
    ensures forall a: Account :: a.toprf != [] && Enrolled(S, peers, a) ==>
              Enrolled(S, CommitAll(S, peers, roundId, ids, draws).0, a)
  {
    hide DeployedNode, RecordOf, KeptFor, CommitAll;
    var peers' := CommitAll(S, peers, roundId, ids, draws).0;
    CommitAllOutcomes(S, peers, roundId, ids, draws);
    forall id | id in peers'
      ensures DeployedNode(S, peers'[id].cfg, id, cs, issuer, keyId)
    {
      assert SameButRound(peers[id], peers'[id], roundId);
    }
    forall a: Account | a.toprf != [] && Kept(S, peers, a)
      ensures Kept(S, peers', a)
    {
      forall id | id in peers'
        ensures KeptAt(S, peers'[id].st, id, a)
      {
        assert SameButRound(peers[id], peers'[id], roundId);
        assert KeptAt(S, peers[id].st, id, a);
      }
    }
    forall a: Account | a.toprf != [] && Enrolled(S, peers, a)
      ensures Enrolled(S, peers', a)
    {
      forall id | id in peers'
        ensures EnrolledAt(S, peers'[id].st, id, a)
      {
        assert SameButRound(peers[id], peers'[id], roundId);
        assert EnrolledAt(S, peers[id].st, id, a);
      }
    }
  }

  /** Every asked node whose answer is needed is there, with a clock close to the browser's. */
  ghost predicate ClocksAgree(clocks: nat -> Option<int>, n: nat, now: int)
  {
    forall k :: 0 <= k < n ==> clocks(k).Some? && -CLOCK_SKEW <= clocks(k).value - now <= CLOCK_SKEW
  }

  lemma CallReachesNode(S: Suite, s: Scene, k: nat, req: SignOnRequest, clock: Option<int>)
    requires IsSuite(S) && SceneOk(S, s) && k < |s.round.commitments| && clock.Some?
    ensures Order(S) > 0 && Participates(S, s, k)
    ensures var c := s.round.commitments[k];
            SignOnCall(S, s.peers, s.roundId, req, c, clock)
            == SignOn(S, s.peers[c.nodeId].cfg, s.peers[c.nodeId].st, s.roundId, req, c, clock.value).1
  {
    hide IsSuite, IsPrime, IsGroup, SceneOk, SignOn, KeptFor, DeployedNode;
    OrderIsPrime(S);
    ParticipantOf(S, s, k);
  }

  /** Participant k's call succeeds, with its share in the answer. */
  lemma AnswerOf(S: Suite, s: Scene, clock: Option<int>, k: nat)
    requires IsSuite(S) && SceneOk(S, s) && k < |s.round.commitments|
    requires clock.Some? && -CLOCK_SKEW <= clock.value - s.d.now <= CLOCK_SKEW
    ensures Order(S) > 0 && Participates(S, s, k) && SceneShare(S, s, k).Ok?
    ensures var r := SignOnCall(S, s.peers, s.roundId, Asked(S, s), s.round.commitments[k], clock);
            r.Ok? && IsAnswerOf(S, r.value, s.round.commitments[k].nodeId, s.a,
                                s.peers[s.round.commitments[k].nodeId].st.users[s.a.username],
                                Body(S, s.issuer, s.jkt, s.o, s.d), SceneShare(S, s, k).value, SceneMessage(s))
  {
    hide *;
    OrderIsPrime(S);
    CallReachesNode(S, s, k, Asked(S, s), clock);
    ParticipantAnswers(S, s, k, clock.value);
  }

  /** The results of the gateway's calls contain the answers of the scene. */
  ghost predicate ResultAt(S: Suite, s: Scene, r: Result<SignOnResponse>, z: int, k: nat)
    requires IsSuite(S) && SceneOk(S, s) && k < |s.round.commitments|
  {
    OrderIsPrime(S);
    r.Ok? && Participates(S, s, k) && SceneShare(S, s, k) == Ok(z)
    && IsAnswerOf(S, r.value, s.round.commitments[k].nodeId, s.a,
                  s.peers[s.round.commitments[k].nodeId].st.users[s.a.username],
                  Body(S, s.issuer, s.jkt, s.o, s.d), z, SceneMessage(s))
  }

  /** These are the results of the gateway's calls. */
  ghost predicate Called(S: Suite, s: Scene, clocks: nat -> Option<int>, results: seq<Result<SignOnResponse>>)
    requires IsSuite(S) && |results| == |s.round.commitments|
  {
    OrderIsPrime(S);
    forall k :: 0 <= k < |results| ==>
      results[k] == SignOnCall(S, s.peers, s.roundId, Asked(S, s), s.round.commitments[k], clocks(k))
  }

  lemma {:induction false} ResultsOf(S: Suite, s: Scene, clocks: nat -> Option<int>,
                                     results: seq<Result<SignOnResponse>>, n: nat)
      returns (zs: seq<int>)
    requires IsSuite(S) && SceneOk(S, s) && ClocksAgree(clocks, |s.round.commitments|, s.d.now)
    requires n <= |s.round.commitments| == |results| && Called(S, s, clocks, results)
    ensures |zs| == n && forall k :: 0 <= k < n ==> ResultAt(S, s, results[k], zs[k], k)
  {
    hide IsSuite, IsPrime, IsGroup, SceneOk, SceneShare, SceneMessage, KeptFor, DeployedNode, SignOnCall, IsAnswerOf,
      Asked, Body;
    OrderIsPrime(S);
    zs := [];
    if n > 0 {
      zs := ResultsOf(S, s, clocks, results, n - 1);
      AnswerOf(S, s, clocks(n - 1), n - 1);
      zs := zs + [SceneShare(S, s, n - 1).value];
    }
  }

  lemma ClocksOfFewer(clocks: nat -> Option<int>, m: nat, n: nat, now: int)
    requires ClocksAgree(clocks, n, now) && m <= n
    ensures ClocksAgree(clocks, m, now)
  {
  }

  /** A scene whose participants are all reachable is answered by all of them. */
  lemma SceneAnswered(S: Suite, s: Scene, clocks: nat -> Option<int>)
      returns (responses: seq<SignOnResponse>, zs: seq<int>)
    requires IsSuite(S) && SceneOk(S, s) && ClocksAgree(clocks, |s.round.commitments|, s.d.now)
    ensures AnswersScene(S, s, responses, zs) && Order(S) > 0
    ensures AllOk(SignOnAll(S, s.peers, s.roundId, Asked(S, s), s.round.commitments, clocks).1) == Ok(responses)
  {
    hide IsSuite, IsPrime, IsGroup, SceneOk, SignOnCall, SignOnAll, ClocksAgree, ResultAt, Asked, NodeRequest;
    OrderIsPrime(S);
    var results := SignOnAll(S, s.peers, s.roundId, Asked(S, s), s.round.commitments, clocks).1;
    SceneDistinct(S, s);
    SignOnAllAnswers(S, s.peers, s.roundId, Asked(S, s), s.round.commitments, clocks);
    zs := ResultsOf(S, s, clocks, results, |results|);
    responses := AnswersIn(S, s, results, zs);
  }

  lemma SceneDistinct(S: Suite, s: Scene)
    requires IsSuite(S) && SceneOk(S, s)
    ensures Distinct(CommitmentIds(s.round.commitments)) && s.round.commitments != [] && s.a.toprf != [] && s.cs != []
  {
    hide IsSuite;
  }

  lemma AnswersIn(S: Suite, s: Scene, results: seq<Result<SignOnResponse>>, zs: seq<int>)
      returns (responses: seq<SignOnResponse>)
    requires IsSuite(S) && SceneOk(S, s) && |results| == |zs| == |s.round.commitments|
    requires forall k :: 0 <= k < |zs| ==> ResultAt(S, s, results[k], zs[k], k)
    ensures AllOk(results) == Ok(responses) && AnswersScene(S, s, responses, zs)
  {
    hide IsSuite, IsPrime, IsGroup, SceneOk, SceneShare, SceneMessage, Participates, IsAnswerOf, Body, AllOk;
    forall k | 0 <= k < |results|
      ensures results[k].Ok?
    {
      assert ResultAt(S, s, results[k], zs[k], k);
    }
    responses := AllOk(results).value;
    forall k | 0 <= k < |zs|
      ensures AnswerAt(S, s, responses, zs, k)
    {
      assert ResultAt(S, s, results[k], zs[k], k);
    }
  }

  /** One sign-on: the nodes behind the gateway, the account, what the user asks for, and what is drawn. */
  datatype Attempt = Attempt(peers: map<int, Peer>, ids: seq<int>, threshold: int, cs: seq<int>, a: Account,
                             issuer: string, keyId: string, jkt: string, o: SignOnOptions, d: Draws,
                             roundId: string, sessionId: string, draws: nat -> Option<Nonces>,
                             clocks: nat -> Option<int>)

  function AskedNodes(t: Attempt): seq<int> { Requested(t.ids, t.o.participants) }

  function FirstRound(S: Suite, t: Attempt): (map<int, Peer>, Result<Round>)
  {
    var (peers, settled) := CommitAll(S, t.peers, t.roundId, AskedNodes(t), t.draws);
    (peers, Collect(settled, t.o.participants.Some?, t.threshold))
  }

  /** What the gateway relays. */
  function Answered(S: Suite, t: Attempt): Result<Relayed>
    requires Order(S) > 0
  {
    RelaySignOn(S, t.peers, t.ids, t.threshold, Body(S, t.issuer, t.jkt, t.o, t.d), t.roundId, t.sessionId, t.draws,
                t.clocks).1
  }

  /** What the browser ends with. */
  ghost function Finished(S: Suite, t: Attempt): Result<string>
    requires Order(S) > 0 && S.ristretto.order > 0
  {
    match Answered(S, t)
    case Err(e) => Err(e)
    case Ok(relayed) => SignedOn(S, t.issuer, t.jkt, t.o, t.d, relayed)
  }

  /** The assertion that the attempt is about. */
  function AttemptToken(t: Attempt): Token { ClaimedToken(t.a, t.jkt, t.o, t.d.now) }

  /**
   * What the gateway's side of a sign-on needs: a dealt deployment that knows the account, a threshold
   * that reaches the dealt one, distinct nodes of which enough commit, and clocks that agree. Of the
   * shares of the account's PRF key nothing is asked.
   */
  ghost predicate CanRelay(S: Suite, t: Attempt)
    requires IsSuite(S)
  {
    OrderIsPrime(S);
    && t.cs != [] && t.a.toprf != [] && t.a.sub != "" && t.d.r % Order(S) != 0 && t.o.username == t.a.username
    && Deployed(S, t.peers, t.cs, t.issuer, t.keyId) && Kept(S, t.peers, t.a)
    && |t.cs| <= t.threshold && Distinct(AskedNodes(t))
    && FirstRound(S, t).1.Ok?
    && ClocksAgree(t.clocks, |AskedNodes(t)|, t.d.now)
  }

  /** The scene in which the gateway's second round plays. */
  function SceneAfter(S: Suite, t: Attempt): Scene
    requires FirstRound(S, t).1.Ok?
  {
    Scene(FirstRound(S, t).0, t.cs, t.a, t.issuer, t.keyId, t.jkt, t.o, t.d, t.roundId, t.sessionId,
          FirstRound(S, t).1.value)
  }

  lemma SceneAfterOk(S: Suite, t: Attempt)
    requires IsSuite(S) && CanRelay(S, t)
    ensures FirstRound(S, t).1.Ok?
    ensures var s := SceneAfter(S, t);
            SceneOk(S, s) && ClocksAgree(t.clocks, |s.round.commitments|, s.d.now) && t.threshold <= |AskedNodes(t)|
  {
    hide IsSuite, IsPrime, IsGroup, CommitAll, Collect, Deployed, Kept, OpenFor, ClocksAgree;
    OrderIsPrime(S);
    var requested, explicit := AskedNodes(t), t.o.participants.Some?;
    var settled := CommitAll(S, t.peers, t.roundId, requested, t.draws).1;
    CollectedOpen(S, t.peers, t.roundId, requested, t.draws, explicit, t.threshold);
    CommitKeepsDeployment(S, t.peers, t.roundId, requested, t.draws, t.cs, t.issuer, t.keyId);
    CommitAllOutcomes(S, t.peers, t.roundId, requested, t.draws);
    CollectSmall(settled, explicit, t.threshold);
    ClocksOfFewer(t.clocks, |Collect(settled, explicit, t.threshold).value.commitments|, |requested|, t.d.now);
  }

  /**
   * The relay succeeds whatever password was typed, since the nodes cannot tell; what the browser makes
   * of it is the nodes' own assertion under a signature of the group, exactly when the typed password
   * gives the nodes' keys and the nodes use the browser's key id.
   */
  lemma SignOnExact(S: Suite, t: Attempt) returns (s: Scene, signature: Bytes)
    requires IsSuite(S) && CanRelay(S, t)
    ensures Order(S) > 0 && S.ristretto.order > 0 && SceneOk(S, s)
    ensures FirstRound(S, t).1.Ok? && s == SceneAfter(S, t) && t.cs != []
    ensures Answered(S, t).Ok?
    ensures Finished(S, t)
            == if KeysMatch(S, s) && t.keyId == KEY_ID then Ok(TokenText(AttemptToken(t), t.issuer, KEY_ID, signature))
               else Err(ShareNotDecrypted)
    ensures Verifies(S, signature, Message(AttemptToken(t), t.issuer, t.keyId), S.ed.mul(t.cs[0], S.ed.base))
  {
    hide *;
    OrderIsPrime(S);
    SceneAfterOk(S, t);
    s := SceneAfter(S, t);
    SceneNames(S, t);
    var responses, zs := SceneAnswered(S, s, t.clocks);
    RelayUnfolds(S, t, responses);
    BrowserExact(S, s, responses, zs);
    signature := SceneSignature(S, s, zs);
  }

  /** The relay, when its round exists and every node of it answers. */
  lemma RelayUnfolds(S: Suite, t: Attempt, responses: seq<SignOnResponse>)
    requires Order(S) > 0 && S.ristretto.order > 0 && t.threshold <= |AskedNodes(t)| && FirstRound(S, t).1.Ok?
    requires var s := SceneAfter(S, t);
             AllOk(SignOnAll(S, s.peers, s.roundId, Asked(S, s), s.round.commitments, t.clocks).1) == Ok(responses)
    ensures Answered(S, t) == Ok(Relayed(t.sessionId, SceneAfter(S, t).round.commitments, responses))
    ensures Finished(S, t)
            == SignedOn(S, t.issuer, t.jkt, t.o, t.d,
                        Relayed(t.sessionId, SceneAfter(S, t).round.commitments, responses))
  {
    hide Collect, CommitAll, SignOnAll, AllOk, NodeRequest, Toprf.Blind, Base64Url.UrlEncode, SignedOn;
  }

  /**
   * When a sign-on succeeds: with the browser's key id, and with the registered password and shares that
   * combine to the registered key; or else by a collision of the truncated SHA-512, on the PRF inputs
   * or on the key inputs of every participant.
   */
  lemma SignOnDecided(S: Suite, t: Attempt) returns (s: Scene)
    requires IsSuite(S) && CanRelay(S, t)
    ensures Order(S) > 0 && S.ristretto.order > 0 && SceneOk(S, s) && t.a.toprf != []
    ensures FirstRound(S, t).1.Ok? && s == SceneAfter(S, t)
    ensures Finished(S, t).Ok?
            <==> t.keyId == KEY_ID
                 && (|| Restored(S, s)
                     || Toprf.Coincide(S, TypedInput(S, s), RegisteredInput(S, s))
                     || (forall k :: 0 <= k < |s.round.commitments| ==>
                           KeysCoincide(S, s, k, TypedPrf(S, s), RegisteredPrf(S, s))))
  {
    hide *;
    var signature;
    s, signature := SignOnExact(S, t);
    SceneNames(S, t);
    KeysMatchExactly(S, s);
  }

  /** Whoever signs on with another password than the registered one has found a collision of the truncated SHA-512. */
  lemma OtherPasswordCollides(S: Suite, t: Attempt) returns (x: Bytes, y: Bytes)
    requires IsSuite(S) && CanRelay(S, t) && t.o.password != t.a.password
    ensures Order(S) > 0 && S.ristretto.order > 0
    ensures Finished(S, t).Ok? ==>
              x != y && |S.sha512(x)| == |S.sha512(y)| == 64 && S.sha512(x)[..32] == S.sha512(y)[..32]
  {
    hide *;
    var s := SignOnDecided(S, t);
    SceneNames(S, t);
    NotRestored(S, s);
    x, y := TypedInput(S, s), RegisteredInput(S, s);
    if !Toprf.Coincide(S, x, y) && Finished(S, t).Ok? {
      x, y := FirstKeyInputs(S, s);
    }
    CollisionsAre(S, x, y);
  }

  lemma NotRestored(S: Suite, s: Scene)
    requires IsSuite(S) && SceneOk(S, s) && s.o.password != s.a.password
    ensures !Restored(S, s)
  {
    hide IsSuite, SceneOk, SharedKey, Toprf.HashToGroup;
  }

  lemma FirstKeyInputs(S: Suite, s: Scene) returns (x: Bytes, y: Bytes)
    requires IsSuite(S) && SceneOk(S, s) && s.a.toprf != []
    requires forall k :: 0 <= k < |s.round.commitments| ==> KeysCoincide(S, s, k, TypedPrf(S, s), RegisteredPrf(S, s))
    ensures Toprf.Coincide(S, x, y)
  {
    hide IsSuite, SceneOk, TypedPrf, RegisteredPrf, Toprf.Coincide, Toprf.ServerInput;
    SceneDistinct(S, s);
    var id := s.round.commitments[0].nodeId;
    x, y := Toprf.ServerInput(TypedPrf(S, s), id), Toprf.ServerInput(RegisteredPrf(S, s), id);
    assert KeysCoincide(S, s, 0, TypedPrf(S, s), RegisteredPrf(S, s));
  }

  lemma CollisionsAre(S: Suite, x: Bytes, y: Bytes)
    ensures Toprf.Coincide(S, x, y)
            <==> x != y && |S.sha512(x)| == |S.sha512(y)| == 64 && S.sha512(x)[..32] == S.sha512(y)[..32]
  {
  }

  /** The account's PRF key was shared by node id, and the threshold reaches its polynomial. */
  ghost predicate SharedById(S: Suite, t: Attempt)
    requires IsSuite(S)
  {
    OrderIsPrime(S);
    t.a.toprf != [] && Enrolled(S, t.peers, t.a) && |t.a.toprf| <= t.threshold
  }

  lemma SceneEnrolled(S: Suite, t: Attempt)
    requires IsSuite(S) && CanRelay(S, t) && FirstRound(S, t).1.Ok?
    requires SharedById(S, t)
    ensures Order(S) > 0 && t.a.toprf != []
    ensures var s := SceneAfter(S, t);
            Enrolled(S, s.peers, s.a) && |s.a.toprf| <= |s.round.commitments|
  {
    hide IsSuite, CommitAll, Collect, Deployed, Kept, Enrolled, OpenFor, ClocksAgree;
    OrderIsPrime(S);
    var requested, explicit := AskedNodes(t), t.o.participants.Some?;
    CommitKeepsDeployment(S, t.peers, t.roundId, requested, t.draws, t.cs, t.issuer, t.keyId);
    CollectSmall(CommitAll(S, t.peers, t.roundId, requested, t.draws).1, explicit, t.threshold);
  }

  /**
   * Sign-on end to end, with the registered password and the browser's key id: every node accepts the
   * assertion, for the account, exactly while it lives, provided client, thumbprint and issuer have names.
   */
  lemma SignOnEndToEnd(S: Suite, t: Attempt, verifier: Settings, now: int)
    requires IsSuite(S) && CanRelay(S, t) && t.keyId == KEY_ID && t.o.password == t.a.password && t.cs != []
    requires SharedById(S, t)
    requires verifier.issuer == t.issuer && verifier.groupPublicKey == S.ed.mul(t.cs[0], S.ed.base)
    ensures S.ristretto.order > 0 && Finished(S, t).Ok?
    ensures var v := VerifyAssertion(S, verifier, Finished(S, t).value, now);
            && (v.Ok? <==> (now <= t.d.now + ASSERTION_LIFETIME || t.d.now + ASSERTION_LIFETIME == 0)
                           && t.jkt != "" && t.o.clientId != "" && t.issuer != "")
            && (v.Ok? ==> v.value.id == Identity(t.a.sub, t.o.clientId, t.o.scope, t.jkt))
  {
    hide *;
    OrderIsPrime(S);
    var s, signature := SignOnExact(S, t);
    SceneNames(S, t);
    SceneEnrolled(S, t);
    RegisteredPasswordMatches(S, s);
    ClaimedFacts(t, now);
    AssertionAccepted(S, verifier, AttemptToken(t), KEY_ID, signature, now);
  }

  lemma SceneNames(S: Suite, t: Attempt)
    requires IsSuite(S) && CanRelay(S, t) && FirstRound(S, t).1.Ok?
    ensures var s := SceneAfter(S, t);
            && s.a == t.a && s.o == t.o && s.d == t.d && s.jkt == t.jkt && s.issuer == t.issuer && s.keyId == t.keyId
            && s.cs == t.cs && s.sessionId == t.sessionId
            && SceneMessage(s) == Message(AttemptToken(t), t.issuer, t.keyId)
            && ClaimedToken(s.a, s.jkt, s.o, s.d.now) == AttemptToken(t)
    ensures t.cs != [] && t.a.sub != ""
  {
    hide IsSuite, FirstRound, Message;
  }

  lemma ClaimedFacts(t: Attempt, now: int)
    requires t.a.sub != ""
    ensures var c := AttemptToken(t);
            && c.Assertion? && 0 < c.exp - c.iat <= MAX_ASSERTION_LIFETIME
            && c.id == Identity(t.a.sub, t.o.clientId, t.o.scope, t.jkt)
            && (FullIdentity(c.id) <==> t.jkt != "" && t.o.clientId != "")
            && (Readable(c, t.issuer, "JWT") <==> FullIdentity(c.id) && t.issuer != "")
            && (Alive(c, now) <==> now <= t.d.now + ASSERTION_LIFETIME || t.d.now + ASSERTION_LIFETIME == 0)
  {
  }
}
