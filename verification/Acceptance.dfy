/** When the nodes accept a credential of their own group, and what an assembled token says. */
module Acceptance {
  import opened Arith
  import opened Seqs
  import opened Bytes
  import opened Json
  import opened CanonicalJson
  import opened Suites
  import opened Frost
  import opened Signing
  import opened Jwt
  import opened Tokens
  import opened Node
  import Lineage

  /** The text of a token under a signature. */
  function TokenText(t: Token, issuer: string, kid: string, signature: Bytes): string
  {
    Assemble(Segment(Header(Typ(t), kid)), Segment(Payload(t, issuer)), signature)
  }

  /** exp 0 is falsy, so a token with it never expires. */
  predicate Alive(t: Token, now: int) { t.exp == 0 || now <= t.exp }

  lemma TokenTextSigned(t: Token, issuer: string, kid: string, signature: Bytes)
    ensures SignedBytes(TokenText(t, issuer, kid, signature)) == Some(Message(t, issuer, kid))
  {
    hide Segment, Assemble, Header, Payload;
    AssembledSplits(Header(Typ(t), kid), Payload(t, issuer), signature);
  }

  lemma ExpiredIsDead(S: Suite, t: Token, issuer: string, now: int)
    requires IsSuite(S)
    ensures Expired(S, Canon(Payload(t, issuer)), now) <==> !Alive(t, now)
  {
    hide IsSuite, Canon, Find, Payload;
    TokenClaims(t, issuer);
    ToNumberOf(S, t.exp);
  }

  /** A well-signed token verifies exactly while it is alive. */
  lemma TokenVerifies(S: Suite, t: Token, issuer: string, kid: string, signature: Bytes, publicKey: Bytes, now: int)
    requires IsSuite(S) && Verifies(S, signature, Message(t, issuer, kid), publicKey)
    ensures VerifyJwt(S, TokenText(t, issuer, kid, signature), publicKey, now).Ok? <==> Alive(t, now)
    ensures Alive(t, now) ==> VerifyJwt(S, TokenText(t, issuer, kid, signature), publicKey, now)
                              == Ok(Verified(Canon(Header(Typ(t), kid)), Canon(Payload(t, issuer))))
  {
    OrderIsPrime(S);
    var h, p := Header(Typ(t), kid), Payload(t, issuer);
    HeaderWellFormed(Typ(t), kid);
    PayloadWellFormed(t, issuer);
    ExpiredIsDead(S, t, issuer, now);
    assert h.Obj? && p.Obj?;
    hide IsSuite, VerifyJwt, Canon, Find, Payload, Header, Verifies, IsPrime, IsGroup, Assemble, Segment, Expired,
      Alive;
    if Alive(t, now) {
      AssembledVerifies(S, h, p, signature, publicKey, now);
    } else if VerifyJwt(S, TokenText(t, issuer, kid, signature), publicKey, now).Ok? {
      TokenTextSigned(t, issuer, kid, signature);
      VerifiedContents(S, TokenText(t, issuer, kid, signature), publicKey, now, h, p);
    }
  }

  /** What a node demands of a credential beyond signature and time: the kind, and who it speaks for. */
  predicate Readable(t: Token, issuer: string, typ: string)
  {
    typ == Typ(t) && !t.Access? && FullIdentity(t.id) && issuer != ""
  }

  lemma ReadsOwnToken(t: Token, issuer: string, kid: string, typ: string)
    ensures var c := ReadCredential(Canon(Header(Typ(t), kid)), Canon(Payload(t, issuer)), typ, issuer);
            && (c.Ok? <==> Readable(t, issuer, typ))
            && (c.Ok? ==> c.value.id == t.id && c.value.iat == t.iat && c.value.exp == t.exp
                          && (t.Assertion? ==> c.value.aud == Some(issuer)))
  {
    HeaderWellFormed(Typ(t), kid);
    TokenClaims(t, issuer);
    if t.Access? {
      Lineage.AccessHasNoClientId(t, issuer);
    }
    hide Canon, Header, Payload, Cnf, Find, Typ, ReadCredential;
    Lineage.ReadByFields(Canon(Header(Typ(t), kid)), Canon(Payload(t, issuer)), typ, Typ(t), issuer, issuer, t.id,
                         t.iat, t.exp);
  }

  /** A node accepts a token of its own group as a credential exactly while it is alive and readable. */
  lemma CredentialAccepted(S: Suite, cfg: Settings, t: Token, kid: string, signature: Bytes, typ: string, now: int)
    requires IsSuite(S) && Verifies(S, signature, Message(t, cfg.issuer, kid), cfg.groupPublicKey)
    ensures var c := VerifyCredential(S, cfg, TokenText(t, cfg.issuer, kid, signature), typ, now);
            && (c.Ok? <==> Alive(t, now) && Readable(t, cfg.issuer, typ))
            && (c.Ok? ==> c.value.id == t.id && c.value.iat == t.iat && c.value.exp == t.exp
                          && (t.Assertion? ==> c.value.aud == Some(cfg.issuer)))
  {
    hide IsSuite, VerifyJwt, Canon, ReadCredential, Verifies, TokenText, Header, Payload, Message, Readable;
    OrderIsPrime(S);
    TokenVerifies(S, t, cfg.issuer, kid, signature, cfg.groupPublicKey, now);
    ReadsOwnToken(t, cfg.issuer, kid, typ);
  }

  lemma ReadableKinds(t: Token, issuer: string)
    requires FullIdentity(t.id) && issuer != ""
    ensures t.Assertion? ==> Readable(t, issuer, "JWT")
    ensures t.Refresh? ==> Readable(t, issuer, "refresh+jwt")
    ensures !t.Access? ==> Readable(t, issuer, Typ(t))
  {
  }

  /** What is checked of an assertion beyond what is checked of every credential. */
  lemma AssertionChecks(S: Suite, cfg: Settings, text: string, now: int)
    requires Order(S) > 0
    ensures var c := VerifyCredential(S, cfg, text, "JWT", now);
            && (VerifyAssertion(S, cfg, text, now).Ok?
                <==> c.Ok? && c.value.aud == Some(cfg.issuer)
                     && 0 < c.value.exp - c.value.iat <= MAX_ASSERTION_LIFETIME)
            && (VerifyAssertion(S, cfg, text, now).Ok? ==> VerifyAssertion(S, cfg, text, now) == c)
  {
    hide VerifyCredential;
  }

  lemma RefreshChecks(S: Suite, cfg: Settings, text: string, now: int)
    requires Order(S) > 0
    ensures var c := VerifyCredential(S, cfg, text, "refresh+jwt", now);
            && (VerifyRefreshToken(S, cfg, text, now).Ok?
                <==> c.Ok? && 0 < c.value.exp - c.value.iat <= MAX_REFRESH_LIFETIME)
            && (VerifyRefreshToken(S, cfg, text, now).Ok? ==> VerifyRefreshToken(S, cfg, text, now) == c)
  {
    hide VerifyCredential;
  }

  /** A node accepts an assertion of its group exactly while it is alive, readable and short-lived. */
  lemma AssertionAccepted(S: Suite, cfg: Settings, t: Token, kid: string, signature: Bytes, now: int)
    requires IsSuite(S) && t.Assertion?
    requires Verifies(S, signature, Message(t, cfg.issuer, kid), cfg.groupPublicKey)
    ensures var v := VerifyAssertion(S, cfg, TokenText(t, cfg.issuer, kid, signature), now);
            && (v.Ok? <==> Alive(t, now) && Readable(t, cfg.issuer, "JWT")
                           && 0 < t.exp - t.iat <= MAX_ASSERTION_LIFETIME)
            && (v.Ok? ==> v.value.id == t.id)
  {
    hide *;
    OrderIsPrime(S);
    CredentialAccepted(S, cfg, t, kid, signature, "JWT", now);
    AssertionChecks(S, cfg, TokenText(t, cfg.issuer, kid, signature), now);
  }

  /** The same for a refresh token. */
  lemma RefreshAccepted(S: Suite, cfg: Settings, t: Token, kid: string, signature: Bytes, now: int)
    requires IsSuite(S) && t.Refresh?
    requires Verifies(S, signature, Message(t, cfg.issuer, kid), cfg.groupPublicKey)
    ensures var v := VerifyRefreshToken(S, cfg, TokenText(t, cfg.issuer, kid, signature), now);
            && (v.Ok? <==> Alive(t, now) && Readable(t, cfg.issuer, "refresh+jwt")
                           && 0 < t.exp - t.iat <= MAX_REFRESH_LIFETIME)
            && (v.Ok? ==> v.value.id == t.id)
  {
    hide *;
    OrderIsPrime(S);
    CredentialAccepted(S, cfg, t, kid, signature, "refresh+jwt", now);
    RefreshChecks(S, cfg, TokenText(t, cfg.issuer, kid, signature), now);
  }
}
