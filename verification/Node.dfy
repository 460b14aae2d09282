/**
 * The identity node of projects/node/src/protocol/node.ts. Its state is the map of open rounds; the
 * transition functions also keep the history of drawn nonces and of every signature share computed.
 * The class performs the steps in place and is proved to make exactly these transitions.
 */
module Node {
  import opened Arith
  import opened Seqs
  import opened Bytes
  import opened Json
  import opened Suites
  import opened Frost
  import opened Jwt
  import opened Tokens
  import Utf8
  import Base64Url
  import Shamir
  import Toprf
  import Dpop
  import Hex

  datatype UserRecord = UserRecord(sub: string, username: string, toprfKeyShare: Shamir.Share, serverKey: Bytes)

  /** What the node is started with. */
  datatype Settings = Settings(nodeId: int, secretKeyShare: int, groupPublicKey: Bytes, issuer: string, keyId: string)

  datatype SignOnRequest = SignOnRequest(
    sessionId: string, username: string, blinded: string, sessionNonce: string, cnfJkt: string,
    clientId: string, scope: string, nonce: string, iat: int, exp: int, iss: string,
    commitments: seq<Commitment>, allParticipants: seq<int>)

  datatype SignOnResponse = SignOnResponse(
    nodeId: int, commitment: Commitment, toprfPartial: string, ciphertext: string, sessionId: string, sub: string)

  datatype Grant = AuthorizationCode | RefreshToken

  datatype SignRequest = SignRequest(
    grant: Grant, assertion: Option<string>, refreshToken: Option<string>, dpopProof: string,
    iat: int, exp: int, jti: string, refreshExp: Option<int>,
    commitments: seq<Commitment>, refreshCommitments: seq<Commitment>, allParticipants: seq<int>)

  datatype SignResponse = SignResponse(
    nodeId: int, accessCommitment: Commitment, accessShare: string, refreshCommitment: Commitment, refreshShare: string)

  datatype Credential = Credential(id: Identity, aud: Option<string>, nonce: Option<string>, iat: int, exp: int)

  // ---- State and history -------------------------------------------------------------

  /** A nonce pair and the number of its drawing. */
  datatype Draw = Draw(serial: nat, nonces: Nonces)

  /** One call of computeSignatureShare: the nonces it spent, what it signed, and when. */
  datatype Use = Use(roundId: string, draw: Draw, token: Token, msg: Bytes, commitments: seq<Commitment>,
                     participants: seq<int>, result: Result<int>, at: int)

  /** A nonce pair as it was drawn, for the round it was drawn for. */
  datatype Drawn = Drawn(roundId: string, nonces: Nonces)

  datatype State = State(users: map<string, UserRecord>, active: map<string, Draw>,
                         draws: seq<Drawn>, uses: seq<Use>)

  const INITIAL := State(map[], map[], [], [])

  // ---- Credentials -------------------------------------------------------------------

  /** A claim that must be a non-empty string. */
  function Claim(payload: Json, name: string): Result<string>
  {
    match Field(payload, name)
    case Some(Str(s)) => if s == "" then Err(ClaimMissing) else Ok(s)
    case _ => Err(ClaimMissing)
  }

  function TextOr(v: Option<Json>, default: string): string
  {
    match v
    case Some(Str(s)) => s
    case _ => default
  }

  function OptionalText(v: Option<Json>): Option<string>
  {
    match v
    case Some(Str(s)) => Some(s)
    case _ => None
  }

  function ReadCredential(header: Json, payload: Json, typ: string, issuer: string): Result<Credential>
  {
    if Field(header, "typ") != Some(Str(typ)) then Err(TypMismatch)
    else
      match (Field(payload, "iat"), Field(payload, "exp"))
      case (Some(Num(iat)), Some(Num(exp))) =>
        var iss := Claim(payload, "iss");
        if iss.Err? then Err(iss.error)
        else if iss.value != issuer then Err(IssMismatch)
        else
          var jkt := match Field(payload, "cnf") case Some(cnf) => Claim(cnf, "jkt") case None => Err(ClaimMissing);
          var sub, clientId := Claim(payload, "sub"), Claim(payload, "client_id");
          if jkt.Err? || sub.Err? || clientId.Err? then Err(ClaimMissing)
          else
            Ok(Credential(Identity(sub.value, clientId.value, TextOr(Field(payload, "scope"), ""), jkt.value),
                          OptionalText(Field(payload, "aud")), OptionalText(Field(payload, "nonce")), iat, exp))
      case (_, _) => Err(IatOrExpMissing)
  }

  function VerifyCredential(S: Suite, cfg: Settings, token: string, typ: string, now: int): Result<Credential>
    requires Order(S) > 0
  {
    match VerifyJwt(S, token, cfg.groupPublicKey, now)
    case Err(e) => Err(e)
    case Ok(v) => ReadCredential(v.header, v.payload, typ, cfg.issuer)
  }

  predicate InRange(lifetime: int, max: int) { 0 < lifetime <= max }

  function VerifyAssertion(S: Suite, cfg: Settings, token: string, now: int): Result<Credential>
    requires Order(S) > 0
  {
    match VerifyCredential(S, cfg, token, "JWT", now)
    case Err(e) => Err(e)
    case Ok(c) =>
      if c.aud != Some(cfg.issuer) then Err(AudMismatch)
      else if !InRange(c.exp - c.iat, MAX_ASSERTION_LIFETIME) then Err(LifetimeOutOfRange)
      else Ok(c)
  }

  function VerifyRefreshToken(S: Suite, cfg: Settings, token: string, now: int): Result<Credential>
    requires Order(S) > 0
  {
    match VerifyCredential(S, cfg, token, "refresh+jwt", now)
    case Err(e) => Err(e)
    case Ok(c) =>
      if !InRange(c.exp - c.iat, MAX_REFRESH_LIFETIME) then Err(RefreshLifetimeOutOfRange) else Ok(c)
  }

  /** The text of the credential a request presents. */
  function Presented(req: SignRequest): string
  {
    var given := if req.grant.AuthorizationCode? then req.assertion else req.refreshToken;
    match given case Some(t) => t case None => ""
  }

  function VerifyPresented(S: Suite, cfg: Settings, req: SignRequest, now: int): Result<Credential>
    requires Order(S) > 0
  {
    if req.grant.AuthorizationCode? then VerifyAssertion(S, cfg, Presented(req), now)
    else VerifyRefreshToken(S, cfg, Presented(req), now)
  }

  // ---- Registration and round one ----------------------------------------------------

  function Register(st: State, user: UserRecord): State
  {
    st.(users := st.users[user.username := user])
  }

  function Commit(st: State, roundId: string, nonces: Nonces): State
  {
    st.(active := st.active[roundId := Draw(|st.draws|, nonces)], draws := st.draws + [Drawn(roundId, nonces)])
  }

  function PublishedBy(S: Suite, nodeId: int, nonces: Nonces): Commitment
  {
    Commitment(nodeId, S.ed.mul(nonces.d, S.ed.base), S.ed.mul(nonces.e, S.ed.base))
  }

  // ---- Sign-on -----------------------------------------------------------------------

  /** The checks before the round's nonces are taken. */
  function CheckSignOn(cfg: Settings, st: State, roundId: string, req: SignOnRequest, now: int): Result<UserRecord>
  {
    if req.username !in st.users then Err(UserNotFound)
    else if req.iss != cfg.issuer then Err(IssMismatch)
    else if !(-CLOCK_SKEW <= now - req.iat <= CLOCK_SKEW) then Err(IatOutOfWindow)
    else if !InRange(req.exp - req.iat, MAX_ASSERTION_LIFETIME) then Err(LifetimeOutOfRange)
    else if roundId !in st.active then Err(RoundNotFound)
    else Ok(st.users[req.username])
  }

  function AssertionOf(user: UserRecord, req: SignOnRequest): Token
  {
    Assertion(Identity(user.sub, req.clientId, req.scope, req.cnfJkt), req.nonce, req.iat, req.exp)
  }

  /** A signature share over one token with the nonces of one draw, as history keeps it. */
  function Spend(S: Suite, cfg: Settings, roundId: string, draw: Draw, token: Token, commitments: seq<Commitment>,
                 participants: seq<int>, now: int): Use
    requires Order(S) > 0
  {
    var msg := Message(token, cfg.issuer, cfg.keyId);
    Use(roundId, draw, token, msg, commitments, participants,
        SignatureShare(S, cfg.nodeId, draw.nonces, cfg.secretKeyShare, msg, commitments, cfg.groupPublicKey,
                       participants),
        now)
  }

  /** The nonce under which node id encrypts its share in a session. */
  function AeadNonce(S: Suite, sessionNonce: Bytes, id: int): Bytes
  {
    var digest := S.sha512(AeadInput(sessionNonce, id));
    if |digest| >= 12 then digest[..12] else digest
  }

  function AeadPrefix(): Bytes { Utf8.Encode("PASTA-AEAD-NONCE") }

  function AeadInput(sessionNonce: Bytes, id: int): Bytes { AeadPrefix() + sessionNonce + Toprf.U16(id) }

  /** The hash behind a nonce is given the session nonce and the low two bytes of the node's id, no more. */
  lemma AeadInputExact(n: Bytes, i: int, n': Bytes, j: int)
    ensures AeadInput(n, i) == AeadInput(n', j) <==> n == n' && i % 65536 == j % 65536
  {
    hide AeadPrefix, Toprf.U16;
    Toprf.U16Length(i);
    Toprf.U16Length(j);
    Toprf.U16Exact(i, j);
    if AeadInput(n, i) == AeadInput(n', j) {
      assert |n| == |n'|;
      ConcatInjective(AeadPrefix() + n, Toprf.U16(i), AeadPrefix() + n', Toprf.U16(j));
      ConcatInjective(AeadPrefix(), n, AeadPrefix(), n');
    }
  }

  /** The plaintext that carries a signature share. */
  function ShareBundle(z: int): Json { Obj([Member("z_i", Str(NumText(z)))]) }

  function SealShare(S: Suite, user: UserRecord, nodeId: int, sessionNonce: string, z: int, msg: Bytes): Bytes
  {
    S.seal(user.serverKey, AeadNonce(S, S.unbase64(sessionNonce), nodeId), Utf8.Encode(Text(ShareBundle(z))), msg)
  }

  function SignOnAnswer(S: Suite, cfg: Settings, user: UserRecord, req: SignOnRequest, commitment: Commitment, use: Use)
    : Result<SignOnResponse>
  {
    match use.result
    case Err(e) => Err(e)
    case Ok(z) =>
      if |user.serverKey| != 32 then Err(BadKeyLength)
      else
        Ok(SignOnResponse(cfg.nodeId, commitment,
             Base64Url.UrlEncode(Toprf.Evaluate(S, user.toprfKeyShare, S.unbase64(req.blinded))),
             Base64Url.UrlEncode(SealShare(S, user, cfg.nodeId, req.sessionNonce, z, use.msg)),
             req.sessionId, user.sub))
  }

  function SignOn(S: Suite, cfg: Settings, st: State, roundId: string, req: SignOnRequest, commitment: Commitment,
                  now: int)
    : (State, Result<SignOnResponse>)
    requires Order(S) > 0
  {
    match CheckSignOn(cfg, st, roundId, req, now)
    case Err(e) => (st, Err(e))
    case Ok(user) =>
      CheckedRound(cfg, st, roundId, req, now);
      var st1 := st.(active := st.active - {roundId});
      if !S.ristretto.valid(S.unbase64(req.blinded)) then (st1, Err(BadPoint))
      else
        var use := Spend(S, cfg, roundId, st.active[roundId], AssertionOf(user, req), req.commitments,
                         req.allParticipants, now);
        (st1.(uses := st1.uses + [use]), SignOnAnswer(S, cfg, user, req, commitment, use))
  }

  // ---- Token signing -----------------------------------------------------------------

  function RefreshExp(req: SignRequest): int
  {
    match req.refreshExp case Some(e) => e case None => req.iat + DEFAULT_REFRESH_LIFETIME
  }

  function TokenEndpoint(cfg: Settings): string { cfg.issuer + "/token" }

  /** The checks before the nonces of the two rounds are taken. */
  function CheckSign(S: Suite, cfg: Settings, st: State, accessRound: string, refreshRound: string, req: SignRequest,
                     now: int)
    : Result<Credential>
    requires Order(S) > 0
  {
    if accessRound == refreshRound then Err(SameRound)
    else
      match VerifyPresented(S, cfg, req, now)
      case Err(e) => Err(e)
      case Ok(c) =>
        var proof := Dpop.VerifyProof(S, req.dpopProof, "POST", TokenEndpoint(cfg), c.id.jkt, CLOCK_SKEW, now);
        if proof.Err? then Err(proof.error)
        else if !(-CLOCK_SKEW <= now - req.iat <= CLOCK_SKEW) then Err(IatOutOfWindow)
        else if !InRange(req.exp - req.iat, MAX_ACCESS_TOKEN_LIFETIME) then Err(LifetimeOutOfRange)
        else if req.jti == "" then Err(EmptyJti)
        else if !InRange(RefreshExp(req) - req.iat, MAX_REFRESH_LIFETIME) then Err(RefreshLifetimeOutOfRange)
        else if accessRound !in st.active || refreshRound !in st.active then Err(RoundNotFound)
        else Ok(c)
  }

  /** What passes the checks has both rounds open. */
  lemma CheckedRound(cfg: Settings, st: State, roundId: string, req: SignOnRequest, now: int)
    requires CheckSignOn(cfg, st, roundId, req, now).Ok?
    ensures roundId in st.active
  {
  }

  lemma CheckedIsOpen(S: Suite, cfg: Settings, st: State, accessRound: string, refreshRound: string, req: SignRequest,
                      now: int)
    requires Order(S) > 0 && CheckSign(S, cfg, st, accessRound, refreshRound, req, now).Ok?
    ensures accessRound in st.active && refreshRound in st.active
  {
    hide VerifyPresented, Dpop.VerifyProof;
  }

  function AccessOf(c: Credential, req: SignRequest): Token { Access(c.id, req.iat, req.exp, req.jti) }

  function RefreshOf(c: Credential, req: SignRequest): Token { Refresh(c.id, req.iat, RefreshExp(req)) }

  function Sign(S: Suite, cfg: Settings, st: State, accessRound: string, refreshRound: string, req: SignRequest,
                accessCommitment: Commitment, refreshCommitment: Commitment, now: int): (State, Result<SignResponse>)
    requires Order(S) > 0
  {
    match CheckSign(S, cfg, st, accessRound, refreshRound, req, now)
    case Err(e) => (st, Err(e))
    case Ok(c) =>
      CheckedIsOpen(S, cfg, st, accessRound, refreshRound, req, now);
      var st1 := st.(active := st.active - {accessRound, refreshRound});
      var access := Spend(S, cfg, accessRound, st.active[accessRound], AccessOf(c, req), req.commitments,
                          req.allParticipants, now);
      match access.result
      case Err(e) => (st1.(uses := st1.uses + [access]), Err(e))
      case Ok(za) =>
        var refresh := Spend(S, cfg, refreshRound, st.active[refreshRound], RefreshOf(c, req), req.refreshCommitments,
                             req.allParticipants, now);
        var st2 := st1.(uses := st1.uses + [access, refresh]);
        match refresh.result
        case Err(e) => (st2, Err(e))
        case Ok(zr) =>
          (st2, Ok(SignResponse(cfg.nodeId, accessCommitment, Hex.NodeScalarToHex(za), refreshCommitment,
                                Hex.NodeScalarToHex(zr))))
  }

  // ---- The object --------------------------------------------------------------------

  /** The open rounds as the node itself keeps them, without drawing numbers. */
  function NoncesOf(active: map<string, Draw>): map<string, Nonces>
  {
    map r | r in active :: active[r].nonces
  }

  class IdentityNode {
    const suite: Suite
    const settings: Settings
    var users: map<string, UserRecord>
    var activeNonces: map<string, Nonces>
    ghost var history: State

    ghost predicate Valid()
      reads this
    {
      Order(suite) > 0 && users == history.users && activeNonces == NoncesOf(history.active)
    }

    constructor (S: Suite, nodeId: int, secretKeyShare: int, groupPublicKey: Bytes, issuer: string, keyId: string)
      requires Order(S) > 0
      ensures Valid() && suite == S && history == INITIAL
      ensures settings == Settings(nodeId, secretKeyShare, groupPublicKey, Base64Url.StripEnd(issuer, '/'), keyId)
    {
      suite := S;
      settings := Settings(nodeId, secretKeyShare, groupPublicKey, Base64Url.StripEnd(issuer, '/'), keyId);
      users := map[];
      activeNonces := map[];
      history := INITIAL;
    }

    method RegisterUser(username: string, sub: string, toprfKeyShare: Shamir.Share, serverKey: Bytes)
      requires Valid()
      modifies this
      ensures Valid() && history == Register(old(history), UserRecord(sub, username, toprfKeyShare, serverKey))
    {
      var user := UserRecord(sub, username, toprfKeyShare, serverKey);
      users := users[username := user];
      history := Register(history, user);
    }

    /** Round one: keep the nonces, publish their points. */
    method GenerateCommitment(roundId: string, nonces: Nonces) returns (c: Commitment)
      requires Valid()
      modifies this
      ensures Valid() && history == Commit(old(history), roundId, nonces)
      ensures c == PublishedBy(suite, settings.nodeId, nonces)
    {
      activeNonces := activeNonces[roundId := nonces];
      history := Commit(history, roundId, nonces);
      c := PublishedBy(suite, settings.nodeId, nonces);
    }

    method HandleSignOn(roundId: string, req: SignOnRequest, commitment: Commitment, now: int)
      returns (r: Result<SignOnResponse>)
      requires Valid()
      modifies this
      ensures Valid()
      ensures (history, r) == SignOn(suite, settings, old(history), roundId, req, commitment, now)
    {
      hide SignatureShare, Message, SealShare, Toprf.Evaluate;
      if req.username !in users {
        return Err(UserNotFound);
      }
      var user := users[req.username];
      if req.iss != settings.issuer {
        return Err(IssMismatch);
      }
      if now - req.iat > CLOCK_SKEW || req.iat - now > CLOCK_SKEW {
        return Err(IatOutOfWindow);
      }
      var lifetime := req.exp - req.iat;
      if lifetime <= 0 || lifetime > MAX_ASSERTION_LIFETIME {
        return Err(LifetimeOutOfRange);
      }
      if roundId !in activeNonces {
        return Err(RoundNotFound);
      }
      var nonces := activeNonces[roundId];
      activeNonces := activeNonces - {roundId};
      ghost var draw := history.active[roundId];
      history := history.(active := history.active - {roundId});

      var blindedPoint := suite.unbase64(req.blinded);
      if !suite.ristretto.valid(blindedPoint) {
        return Err(BadPoint);
      }
      var partialPoint := Toprf.Evaluate(suite, user.toprfKeyShare, blindedPoint);
      var token := AssertionOf(user, req);
      var signingInput := Message(token, settings.issuer, settings.keyId);
      var z := ComputeSignatureShare(suite, settings.nodeId, nonces, settings.secretKeyShare, signingInput,
                                     req.commitments, settings.groupPublicKey, req.allParticipants);
      history := history.(uses := history.uses
                          + [Spend(suite, settings, roundId, draw, token, req.commitments, req.allParticipants, now)]);
      if z.Err? {
        return Err(z.error);
      }
      if |user.serverKey| != 32 {
        return Err(BadKeyLength);
      }
      var ct := SealShare(suite, user, settings.nodeId, req.sessionNonce, z.value, signingInput);
      return Ok(SignOnResponse(settings.nodeId, commitment, Base64Url.UrlEncode(partialPoint), Base64Url.UrlEncode(ct),
                               req.sessionId, user.sub));
    }

    method HandleSign(accessRound: string, refreshRound: string, req: SignRequest, accessCommitment: Commitment,
                      refreshCommitment: Commitment, now: int) returns (r: Result<SignResponse>)
      requires Valid()
      modifies this
      ensures Valid()
      ensures (history, r)
              == Sign(suite, settings, old(history), accessRound, refreshRound, req, accessCommitment,
                      refreshCommitment, now)
    {
      hide SignatureShare, Message, VerifyPresented, Dpop.VerifyProof, Hex.NodeScalarToHex, TokenEndpoint;
      if accessRound == refreshRound {
        return Err(SameRound);
      }
      var credential := VerifyPresented(suite, settings, req, now);
      if credential.Err? {
        return Err(credential.error);
      }
      var c := credential.value;
      var proof := Dpop.VerifyProof(suite, req.dpopProof, "POST", TokenEndpoint(settings), c.id.jkt, CLOCK_SKEW, now);
      if proof.Err? {
        return Err(proof.error);
      }
      if now - req.iat > CLOCK_SKEW || req.iat - now > CLOCK_SKEW {
        return Err(IatOutOfWindow);
      }
      var lifetime := req.exp - req.iat;
      if lifetime <= 0 || lifetime > MAX_ACCESS_TOKEN_LIFETIME {
        return Err(LifetimeOutOfRange);
      }
      if |req.jti| == 0 {
        return Err(EmptyJti);
      }
      var refreshExp := RefreshExp(req);
      if refreshExp - req.iat <= 0 || refreshExp - req.iat > MAX_REFRESH_LIFETIME {
        return Err(RefreshLifetimeOutOfRange);
      }
      if accessRound !in activeNonces {
        return Err(RoundNotFound);
      }
      if refreshRound !in activeNonces {
        return Err(RoundNotFound);
      }
      var accessNonces, refreshNonces := activeNonces[accessRound], activeNonces[refreshRound];
      activeNonces := activeNonces - {accessRound};
      activeNonces := activeNonces - {refreshRound};
      ghost var accessDraw, refreshDraw := history.active[accessRound], history.active[refreshRound];
      history := history.(active := history.active - {accessRound, refreshRound});

      var za := Share(AccessOf(c, req), accessNonces, req.commitments, req.allParticipants);
      history := history.(uses := history.uses
        + [Spend(suite, settings, accessRound, accessDraw, AccessOf(c, req), req.commitments, req.allParticipants,
                 now)]);
      if za.Err? {
        return Err(za.error);
      }
      var zr := Share(RefreshOf(c, req), refreshNonces, req.refreshCommitments, req.allParticipants);
      history := history.(uses := history.uses
        + [Spend(suite, settings, refreshRound, refreshDraw, RefreshOf(c, req), req.refreshCommitments,
                 req.allParticipants, now)]);
      assert history.uses == old(history).uses
        + [Spend(suite, settings, accessRound, accessDraw, AccessOf(c, req), req.commitments, req.allParticipants, now),
           Spend(suite, settings, refreshRound, refreshDraw, RefreshOf(c, req), req.refreshCommitments,
                 req.allParticipants, now)];
      if zr.Err? {
        return Err(zr.error);
      }
      return Ok(SignResponse(settings.nodeId, accessCommitment, Hex.NodeScalarToHex(za.value),
                             refreshCommitment, Hex.NodeScalarToHex(zr.value)));
    }

    /** One share over one token. */
    method Share(token: Token, nonces: Nonces, commitments: seq<Commitment>, allParticipants: seq<int>)
        returns (z: Result<int>)
      requires Valid()
      ensures z == SignatureShare(suite, settings.nodeId, nonces, settings.secretKeyShare,
                                  Message(token, settings.issuer, settings.keyId), commitments, settings.groupPublicKey,
                                  allParticipants)
    {
      var signingInput := Message(token, settings.issuer, settings.keyId);
      z := ComputeSignatureShare(suite, settings.nodeId, nonces, settings.secretKeyShare, signingInput,
                                 commitments, settings.groupPublicKey, allParticipants);
    }
  }
}
