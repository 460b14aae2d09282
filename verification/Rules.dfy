/** What each check lets through, condition by condition, in the order-free form that a caller can test. */
module Rules {
  import opened Arith
  import opened Seqs
  import opened Bytes
  import opened Json
  import opened Suites
  import opened Frost
  import opened Jwt
  import opened Tokens
  import opened Node
  import opened NodeConfig
  import Client
  import Dealer
  import Dpop
  import Gateway
  import Hex
  import Signing
  import Toprf
  import Utf8
  import Base64Url

  // ---- The node ----------------------------------------------------------------------

  /** A sign-on request is let through for a known user and this node's issuer, in time, in an open round. */
  ghost predicate SignOnAllowed(cfg: Settings, st: State, roundId: string, req: SignOnRequest, now: int)
  {
    && req.username in st.users && req.iss == cfg.issuer
    && -60 <= now - req.iat <= 60 && 0 < req.exp - req.iat <= 30 && roundId in st.active
  }

  /** Otherwise it changes nothing and answers nothing. */
  lemma SignOnRules(S: Suite, cfg: Settings, st: State, roundId: string, req: SignOnRequest, c: Commitment, now: int)
    requires Order(S) > 0
    ensures var (st', r) := SignOn(S, cfg, st, roundId, req, c, now);
            && (!SignOnAllowed(cfg, st, roundId, req, now) ==> st' == st && r.Err?)
            && (SignOnAllowed(cfg, st, roundId, req, now) ==> roundId !in st'.active)
            && (req.iss != cfg.issuer && req.username in st.users ==> r == Err(IssMismatch))
  {
    hide Spend, SignOnAnswer, AssertionOf;
  }

  /** A token request is let through for a credential of its grant, a proof by its key, claims in their limits. */
  ghost predicate SignAllowed(S: Suite, cfg: Settings, st: State, ar: string, rr: string, req: SignRequest, now: int)
    requires Order(S) > 0
  {
    var v := match req.grant
      case AuthorizationCode => VerifyAssertion(S, cfg, TextGiven(req.assertion), now)
      case RefreshToken => VerifyRefreshToken(S, cfg, TextGiven(req.refreshToken), now);
    && ar != rr && ar in st.active && rr in st.active && v.Ok?
    && Dpop.VerifyProof(S, req.dpopProof, "POST", cfg.issuer + "/token", v.value.id.jkt, 60, now).Ok?
    && -60 <= now - req.iat <= 60 && req.jti != ""
    && 0 < req.exp - req.iat <= 3600
    && 0 < (match req.refreshExp case Some(x) => x case None => req.iat + 30 * 86400) - req.iat <= 40 * 86400
  }

  /** What an answered token request says: the shares of two tokens for the identity of the credential. */
  lemma SignAnswered(S: Suite, cfg: Settings, st: State, ar: string, rr: string, req: SignRequest, ac: Commitment,
                     rc: Commitment, now: int)
    requires Order(S) > 0 && SignAllowed(S, cfg, st, ar, rr, req, now)
    ensures var (st', r) := Sign(S, cfg, st, ar, rr, req, ac, rc, now);
            && st'.users == st.users && st'.draws == st.draws && st'.active == st.active - {ar, rr}
            && (r.Ok? ==>
                  && |st'.uses| == |st.uses| + 2 && st'.uses[..|st.uses|] == st.uses
                  && TokenSigned(cfg, st'.uses[|st.uses|], st.active[ar], ar, now, req.commitments, req.allParticipants)
                  && TokenSigned(cfg, Last(st'.uses), st.active[rr], rr, now, req.refreshCommitments,
                                 req.allParticipants)
                  && st'.uses[|st.uses|].token == Access(IdentityGiven(S, cfg, req, now), req.iat, req.exp, req.jti)
                  && Last(st'.uses).token
                     == Refresh(IdentityGiven(S, cfg, req, now), req.iat,
                                match req.refreshExp case Some(x) => x case None => req.iat + 30 * 86400)
                  && r.value == SignResponse(cfg.nodeId, ac, Hex.NodeScalarToHex(st'.uses[|st.uses|].result.value), rc,
                                             Hex.NodeScalarToHex(Last(st'.uses).result.value)))
  {
    hide SignatureShare, Message, VerifyAssertion, VerifyRefreshToken, Dpop.VerifyProof, Hex.NodeScalarToHex;
  }

  /** The share is over the token's message, with the round's nonces. */
  ghost predicate TokenSigned(cfg: Settings, use: Use, draw: Draw, roundId: string, now: int,
                              commitments: seq<Commitment>, participants: seq<int>)
  {
    && use.roundId == roundId && use.draw == draw && use.at == now && use.result.Ok?
    && use.msg == Message(use.token, cfg.issuer, cfg.keyId)
    && use.commitments == commitments && use.participants == participants
  }

  /** The identity in the credential that the request presents. */
  ghost function IdentityGiven(S: Suite, cfg: Settings, req: SignRequest, now: int): Identity
    requires Order(S) > 0
  {
    match (match req.grant
           case AuthorizationCode => VerifyAssertion(S, cfg, TextGiven(req.assertion), now)
           case RefreshToken => VerifyRefreshToken(S, cfg, TextGiven(req.refreshToken), now))
    case Ok(c) => c.id
    case Err(_) => Identity("", "", "", "")
  }

  function TextGiven(t: Option<string>): string { match t case Some(s) => s case None => "" }

  lemma SignRules(S: Suite, cfg: Settings, st: State, ar: string, rr: string, req: SignRequest, ac: Commitment,
                  rc: Commitment, now: int)
    requires Order(S) > 0
    ensures var (st', r) := Sign(S, cfg, st, ar, rr, req, ac, rc, now);
            && (!SignAllowed(S, cfg, st, ar, rr, req, now) ==> st' == st && r.Err?)
            && (SignAllowed(S, cfg, st, ar, rr, req, now) ==> ar !in st'.active && rr !in st'.active)
  {
    hide Spend, VerifyAssertion, VerifyRefreshToken, Dpop.VerifyProof, Hex.NodeScalarToHex, AccessOf, RefreshOf;
  }

  /** What an answered sign-on says, and the one share that enters the history for it. */
  lemma SignOnAnswered(S: Suite, cfg: Settings, st: State, roundId: string, req: SignOnRequest, c: Commitment, now: int)
    requires Order(S) > 0 && SignOnAllowed(cfg, st, roundId, req, now)
    ensures var (st', r) := SignOn(S, cfg, st, roundId, req, c, now);
            var u := st.users[req.username];
            && st'.users == st.users && st'.draws == st.draws && st'.active == st.active - {roundId}
            && (r.Ok? ==>
                  && r.value.nodeId == cfg.nodeId && r.value.commitment == c && r.value.sessionId == req.sessionId
                  && r.value.sub == u.sub && |u.serverKey| == 32
                  && r.value.toprfPartial
                     == Base64Url.UrlEncode(S.ristretto.mul(u.toprfKeyShare.value, S.unbase64(req.blinded)))
                  && |st'.uses| == |st.uses| + 1 && st'.uses[..|st.uses|] == st.uses
                  && SignedForRequest(cfg, Last(st'.uses), st.active[roundId], roundId, u, req, now))
  {
    hide SignatureShare, Message, SealShare, Base64Url.UrlEncode;
  }

  /** The share is for the identity that record and request name, over its message, with the round's nonces. */
  ghost predicate SignedForRequest(cfg: Settings, use: Use, draw: Draw, roundId: string, u: UserRecord,
                                   req: SignOnRequest, now: int)
  {
    && use.roundId == roundId && use.draw == draw && use.at == now && use.result.Ok?
    && use.token == Assertion(Identity(u.sub, req.clientId, req.scope, req.cnfJkt), req.nonce, req.iat, req.exp)
    && use.msg == Message(use.token, cfg.issuer, cfg.keyId)
    && use.commitments == req.commitments && use.participants == req.allParticipants
  }

  /** Registering touches one user, and committing one round and the list of draws. */
  lemma RegisterRules(st: State, u: UserRecord)
    ensures var st' := Register(st, u);
            && u.username in st'.users && st'.users[u.username] == u
            && (forall n :: n != u.username ==> (n in st'.users <==> n in st.users))
            && (forall n :: n != u.username && n in st.users ==> st'.users[n] == st.users[n])
            && st'.active == st.active && st'.draws == st.draws && st'.uses == st.uses
  {
  }

  lemma CommitRules(S: Suite, st: State, nodeId: int, roundId: string, nonces: Nonces)
    ensures var st' := Commit(st, roundId, nonces);
            && roundId in st'.active && st'.active[roundId].nonces == nonces
            && st'.active - {roundId} == st.active - {roundId}
            && st'.users == st.users && st'.uses == st.uses && st'.draws == st.draws + [Drawn(roundId, nonces)]
    ensures PublishedBy(S, nodeId, nonces).nodeId == nodeId
    ensures PublishedBy(S, nodeId, nonces).D == S.ed.mul(nonces.d, S.ed.base)
    ensures PublishedBy(S, nodeId, nonces).E == S.ed.mul(nonces.e, S.ed.base)
  {
  }

  // ---- Browser and gateway -----------------------------------------------------------

  /** What leaves the browser: an assertion for thirty seconds, and the blinded password. */
  lemma BodyRules(S: Suite, issuer: string, jkt: string, o: Client.SignOnOptions, d: Client.Draws)
    requires IsSuite(S)
    ensures var b := Client.Body(S, issuer, jkt, o, d);
            && b.username == o.username && b.cnfJkt == jkt && b.clientId == o.clientId && b.scope == o.scope
            && b.nonce == o.nonce && b.iss == issuer && b.participants == o.participants
            && b.iat == d.now && b.exp == d.now + 30
            && S.unbase64(b.sessionNonce) == d.sessionNonce
            && S.unbase64(b.blinded) == S.ristretto.mul(d.r, Toprf.HashToGroup(S, Utf8.Encode(o.password)))
  {
    hide Base64Url.UrlEncode, Toprf.HashToGroup;
    Unbase64Of(S, d.sessionNonce);
    Unbase64Of(S, Toprf.Blind(S, Utf8.Encode(o.password), d.r));
  }

  /** The sub of the assertion is that of the first answer, or the typed name where it gives none. */
  lemma SubRules(relayed: Gateway.Relayed, o: Client.SignOnOptions)
    ensures relayed.responses == [] || relayed.responses[0].sub == "" ==> Client.SubOf(relayed, o) == o.username
    ensures relayed.responses != [] && relayed.responses[0].sub != "" ==>
              Client.SubOf(relayed, o) == relayed.responses[0].sub
  {
  }

  /** The relayed partials are read exactly when each of them is the text of a point. */
  lemma {:induction false} PartialsRules(S: Suite, responses: seq<SignOnResponse>)
    ensures Client.PartialsIn(S, responses).Ok?
            <==> forall k :: 0 <= k < |responses| ==> IsPointText(S, responses[k].toprfPartial)
    ensures Client.PartialsIn(S, responses).Ok? ==>
              var partials := Client.PartialsIn(S, responses).value;
              |partials| == |responses| && forall k :: 0 <= k < |responses| ==>
                partials[k].id == responses[k].nodeId
                && Base64Url.UrlDecode(responses[k].toprfPartial) == Some(partials[k].point)
  {
    hide Base64Url.UrlDecode;
    if responses != [] {
      PartialsRules(S, Front(responses));
    }
  }

  predicate IsPointText(S: Suite, text: string)
  {
    Base64Url.UrlDecode(text).Some? && S.ristretto.valid(Base64Url.UrlDecode(text).value)
  }

  /** What the gateway asks for: an access token for an hour and a refresh token for thirty days. */
  lemma TokenRequestRules(grant: Grant, credential: string, proof: string, iat: int, jti: string, access: Gateway.Round,
                          refresh: Gateway.Round)
    ensures var q := Gateway.TokenRequest(grant, credential, proof, iat, jti, access, refresh);
            && q.grant == grant && Presented(q) == credential && q.dpopProof == proof && q.jti == jti
            && (q.assertion.Some? <==> grant.AuthorizationCode?) && (q.refreshToken.Some? <==> grant.RefreshToken?)
            && q.iat == iat && q.exp == iat + 3600 && q.refreshExp == Some(iat + 30 * 86400)
            && q.commitments == access.commitments && q.refreshCommitments == refresh.commitments
            && q.allParticipants == access.participants
  {
  }

  /** The gateway reads an identity exactly from three parts whose payload names user, client and key. */
  lemma ClaimsRules(S: Suite, credential: string, payload: Json)
    requires |SplitDots(credential)| == 3 && S.parse(S.unbase64(SplitDots(credential)[1])) == Some(payload)
    ensures var r := Gateway.DecodeCredentialClaims(S, credential);
            && (r.Ok? <==> && Named(Field(payload, "sub")) && Named(Field(payload, "client_id"))
                           && Field(payload, "cnf").Some? && Named(Field(Field(payload, "cnf").value, "jkt")))
            && (r.Ok? ==> && Field(payload, "sub") == Some(Str(r.value.sub))
                          && Field(payload, "client_id") == Some(Str(r.value.clientId))
                          && Field(Field(payload, "cnf").value, "jkt") == Some(Str(r.value.jkt))
                          && (forall s :: Field(payload, "scope") == Some(Str(s)) ==> r.value.scope == s))
            && (r.Err? ==> r == Err(InvalidCredential))
  {
    hide Find, SplitDots;
  }

  // ---- Tokens ------------------------------------------------------------------------

  /** The three parts of a token, decoded. */
  ghost predicate JwtSays(S: Suite, token: string, header: Json, payload: Json)
  {
    var parts := SplitDots(token);
    |parts| == 3 && S.parse(S.unbase64(parts[0])) == Some(header) && S.parse(S.unbase64(parts[1])) == Some(payload)
  }

  /** The signature in the token is the key's over the token's own first two parts, as they stand in it. */
  ghost predicate JwtSigned(S: Suite, token: string, publicKey: Bytes)
    requires Order(S) > 0
  {
    var parts := SplitDots(token);
    |parts| == 3 && Verifies(S, S.unbase64(parts[2]), Utf8.Encode(parts[0] + "." + parts[1]), publicKey)
  }

  /** A token verifies exactly when it is signed with EdDSA and an expiry in it has not passed. */
  lemma JwtRules(S: Suite, token: string, publicKey: Bytes, now: int, header: Json, payload: Json)
    requires Order(S) > 0
    ensures VerifyJwt(S, token, publicKey, now) == Ok(Verified(header, payload))
            <==> && JwtSays(S, token, header, payload) && JwtSigned(S, token, publicKey)
                 && Field(header, "alg") == Some(Str("EdDSA")) && payload != Null
                 && (forall v, n :: Field(payload, "exp") == Some(v) && Truthy(v) && S.toNumber(v) == Some(n) ==>
                       now <= n)
  {
    hide Verifies, SplitDots, Find, Utf8.Encode, Truthy;
  }

  /** A credential is read exactly when kind, issuer, times and every needed claim are there. */
  lemma CredentialRules(header: Json, payload: Json, typ: string, issuer: string)
    ensures ReadCredential(header, payload, typ, issuer).Ok?
            <==> && Field(header, "typ") == Some(Str(typ)) && Field(payload, "iss") == Some(Str(issuer)) && issuer != ""
                 && Named(Field(payload, "sub")) && Named(Field(payload, "client_id"))
                 && Field(payload, "cnf").Some? && Named(Field(Field(payload, "cnf").value, "jkt"))
                 && Field(payload, "iat").Some? && Field(payload, "iat").value.Num?
                 && Field(payload, "exp").Some? && Field(payload, "exp").value.Num?
    ensures ReadCredential(header, payload, typ, issuer).Ok? ==>
              var c := ReadCredential(header, payload, typ, issuer).value;
              && Field(payload, "sub") == Some(Str(c.id.sub)) && Field(payload, "client_id") == Some(Str(c.id.clientId))
              && Field(Field(payload, "cnf").value, "jkt") == Some(Str(c.id.jkt))
              && Field(payload, "iat") == Some(Num(c.iat)) && Field(payload, "exp") == Some(Num(c.exp))
              && (forall s :: Field(payload, "scope") == Some(Str(s)) ==> c.id.scope == s)
              && (forall s :: Field(payload, "aud") == Some(Str(s)) <==> c.aud == Some(s))
              && (forall s :: Field(payload, "nonce") == Some(Str(s)) <==> c.nonce == Some(s))
  {
    hide Find;
  }

  /** The property is a string, and not the empty one. */
  predicate Named(v: Option<Json>) { v.Some? && v.value.Str? && v.value.s != "" }

  /** Whoever has the scalar y of a key can sign any proof by it, with any nonce k. */
  lemma KeyHolderSigns(S: Suite, y: int, k: int, payload: Json) returns (signature: Bytes)
    requires IsSuite(S)
    ensures Order(S) > 0 && Dpop.SignedProof(S, S.ed.mul(y, S.ed.base), payload, signature)
  {
    hide IsSuite, IsPrime, IsGroup, Verifies, Base64Url.UrlEncode, Challenge;
    OrderIsPrime(S);
    var R, Y := S.ed.mul(k, S.ed.base), S.ed.mul(y, S.ed.base);
    BaseValid(S.ed);
    MulLength(S.ed, k, S.ed.base);
    MulLength(S.ed, y, S.ed.base);
    var msg := SigningInput(Dpop.ProofHeader(Base64Url.UrlEncode(Y)), payload);
    var c := Challenge(S, R, Y, msg);
    var z := k + c * y;
    Signing.SignatureEquation(S, R, Y, k, c, y, z, msg);
    signature := R + LeBytes(z % Order(S), 32);
  }

  // ---- The node file -----------------------------------------------------------------

  ghost predicate UserAllowed(u: UserConfig, nodeId: int)
  {
    && u.username != "" && u.sub != "" && u.toprfKeyShare.id == nodeId && 0 <= u.toprfKeyShare.value < Pow(256, 32)
    && |u.serverKey| == 32
  }

  /** A file that is accepted configures one node of a quorum that can exist, and users that can be told apart. */
  lemma ConfigRules(text: string)
    requires Loaded(text).Ok?
    ensures var c := Loaded(text).value;
            && c.version == 1 && 1 <= c.threshold <= c.total && 1 <= c.nodeId <= c.total
            && |c.groupPublicKey| == 32 && 0 <= c.secretKeyShare < Pow(256, 32)
            && (forall i :: 0 <= i < |c.users| ==> UserAllowed(c.users[i], c.nodeId))
            && (forall i, j :: 0 <= i < j < |c.users| ==> c.users[i].username != c.users[j].username)
  {
    hide Parse, Find, BytesField, ScalarField, ParseUsers, UserAllowed;
    var raw := Parse(text).value;
    BytesAllowed(Field(raw, "groupPublicKey"), 32);
    ScalarAllowed(Field(raw, "secretKeyShare"));
    var c := Loaded(text).value;
    UsersAllowed(Field(raw, "users").value.items, c.nodeId);
    forall i, j | 0 <= i < j < |c.users|
      ensures c.users[i].username != c.users[j].username
    {
      assert NamesOf(c.users)[i] != NamesOf(c.users)[j];
    }
  }

  lemma BytesAllowed(v: Option<Json>, n: nat)
    ensures BytesField(v, n).Ok? ==> |BytesField(v, n).value| == n
  {
  }

  lemma ScalarAllowed(v: Option<Json>)
    ensures ScalarField(v).Ok? ==> 0 <= ScalarField(v).value < Pow(256, 32)
  {
    hide Hex.HexNumber, Pow;
    if ScalarField(v).Ok? {
      Hex.NumberBound(v.value.s);
    }
  }

  lemma {:induction false} UsersAllowed(raws: seq<Json>, nodeId: int)
    ensures ParseUsers(raws, nodeId).Ok? ==>
              forall i :: 0 <= i < |ParseUsers(raws, nodeId).value| ==>
                UserAllowed(ParseUsers(raws, nodeId).value[i], nodeId)
  {
    hide ParseUser, UserAllowed;
    if raws != [] {
      UsersAllowed(Front(raws), nodeId);
      OneAllowed(Last(raws), nodeId);
    }
  }

  lemma OneAllowed(raw: Json, nodeId: int)
    ensures ParseUser(raw, nodeId).Ok? ==> UserAllowed(ParseUser(raw, nodeId).value, nodeId)
  {
    hide Find, BytesField, ScalarField, Pow;
    if ParseUser(raw, nodeId).Ok? {
      ScalarAllowed(Field(Field(raw, "toprfKeyShare").value, "value"));
      BytesAllowed(Field(raw, "h_i"), 32);
    }
  }

  // ---- The dealer's options ----------------------------------------------------------

  /** The dealer runs exactly for a threshold within the total, a key id, and users that can be told apart. */
  lemma OptionRules(o: Dealer.Options)
    ensures Dealer.CheckOptions(o).None?
            <==> && 1 <= o.threshold <= o.total && o.keyId != "" && o.users != []
                 && (forall i :: 0 <= i < |o.users| ==> o.users[i].username != "" && o.users[i].sub != "")
                 && (forall i, j :: 0 <= i < j < |o.users| ==>
                       o.users[i].username != o.users[j].username && o.users[i].sub != o.users[j].sub)
  {
    hide Dealer.CheckUsers;
    Dealer.CheckUsersExact(o.users);
    var names, subs := Dealer.Usernames(o.users), Dealer.Subs(o.users);
    assert forall i :: 0 <= i < |o.users| ==> names[i] == o.users[i].username && subs[i] == o.users[i].sub;
  }
}
