/** The three JWTs the group signs, as values, and the bytes that are signed for each. */
module Tokens {
  import opened Arith
  import opened Seqs
  import opened Bytes
  import opened Json
  import opened CanonicalJson
  import opened Jwt

  const MAX_ASSERTION_LIFETIME := 30
  const MAX_ACCESS_TOKEN_LIFETIME := 3600
  const DEFAULT_REFRESH_LIFETIME := 86400 * 30
  const MAX_REFRESH_LIFETIME := 86400 * 40
  const CLOCK_SKEW := 60

  /** Who a token speaks for, and the key it is bound to. */
  datatype Identity = Identity(sub: string, clientId: string, scope: string, jkt: string)

  /** Every part that a credential must name is there. */
  predicate FullIdentity(id: Identity) { id.sub != "" && id.clientId != "" && id.jkt != "" }

  datatype Token =
    | Assertion(id: Identity, nonce: string, iat: int, exp: int)
    | Access(id: Identity, iat: int, exp: int, jti: string)
    | Refresh(id: Identity, iat: int, exp: int)

  function Typ(t: Token): string
  {
    match t
    case Assertion(_, _, _, _) => "JWT"
    case Access(_, _, _, _) => "at+jwt"
    case Refresh(_, _, _) => "refresh+jwt"
  }

  function Header(typ: string, kid: string): Json
  {
    Obj([Member("alg", Str("EdDSA")), Member("typ", Str(typ)), Member("kid", Str(kid))])
  }

  function Cnf(jkt: string): Json { Obj([Member("jkt", Str(jkt))]) }

  /** The payload with its properties in the order the node writes them down. */
  function Payload(t: Token, issuer: string): Json
  {
    match t
    case Assertion(id, nonce, iat, exp) =>
      Obj([Member("iss", Str(issuer)), Member("sub", Str(id.sub)), Member("aud", Str(issuer)),
           Member("client_id", Str(id.clientId)), Member("scope", Str(id.scope)), Member("cnf", Cnf(id.jkt)),
           Member("nonce", Str(nonce)), Member("iat", Num(iat)), Member("exp", Num(exp))])
    case Access(id, iat, exp, jti) =>
      Obj([Member("iss", Str(issuer)), Member("sub", Str(id.sub)), Member("aud", Str(id.clientId)),
           Member("scope", Str(id.scope)), Member("cnf", Cnf(id.jkt)),
           Member("iat", Num(iat)), Member("exp", Num(exp)), Member("jti", Str(jti))])
    case Refresh(id, iat, exp) =>
      Obj([Member("iss", Str(issuer)), Member("sub", Str(id.sub)), Member("cnf", Cnf(id.jkt)),
           Member("client_id", Str(id.clientId)), Member("scope", Str(id.scope)),
           Member("iat", Num(iat)), Member("exp", Num(exp))])
  }

  /** The bytes a node signs for a token. */
  function Message(t: Token, issuer: string, kid: string): Bytes
  {
    SigningInput(Header(Typ(t), kid), Payload(t, issuer))
  }

  // ---- Shape -------------------------------------------------------------------------

  lemma HeaderWellFormed(typ: string, kid: string)
    ensures WellFormed(Header(typ, kid))
    ensures Field(Header(typ, kid), "alg") == Some(Str("EdDSA"))
    ensures Field(Canon(Header(typ, kid)), "alg") == Some(Str("EdDSA"))
    ensures Field(Canon(Header(typ, kid)), "typ") == Some(Str(typ))
    ensures Field(Canon(Header(typ, kid)), "kid") == Some(Str(kid))
    ensures !Canon(Header(typ, kid)).Null?
  {
    var h := Header(typ, kid);
    assert DistinctKeys(h.members);
    FindAt(h.members, 0);
    FindAt(h.members, 1);
    FindAt(h.members, 2);
    CanonField(h, "alg");
    CanonField(h, "typ");
    CanonField(h, "kid");
  }

  lemma CnfFields(jkt: string)
    ensures WellFormed(Cnf(jkt)) && Field(Cnf(jkt), "jkt") == Some(Str(jkt))
    ensures Canon(Cnf(jkt)) == Cnf(jkt)
  {
    var ms := Cnf(jkt).members;
    assert DistinctKeys(ms);
    FindAt(ms, 0);
    assert CanonMembers(ms) == ms;
    SortOne(MemberLeq, ms[0]);
  }

  lemma PayloadKeysDistinct(t: Token, issuer: string)
    ensures DistinctKeys(Payload(t, issuer).members)
  {
    hide Cnf;
    var ms := Payload(t, issuer).members;
    forall i, j | 0 <= i < j < |ms|
      ensures ms[i].key != ms[j].key
    {
    }
  }

  lemma PayloadWellFormed(t: Token, issuer: string)
    ensures WellFormed(Payload(t, issuer))
  {
    var ms := Payload(t, issuer).members;
    PayloadKeysDistinct(t, issuer);
    CnfFields(t.id.jkt);
    forall i | 0 <= i < |ms|
      ensures WellFormed(ms[i].value)
    {
      assert ms[i].value.Str? || ms[i].value.Num? || ms[i].value == Cnf(t.id.jkt);
    }
  }

  /** The property at position i, as the canonical payload has it. */
  lemma CanonAt(v: Json, i: nat)
    requires WellFormed(v) && v.Obj? && i < |v.members|
    ensures Field(Canon(v), v.members[i].key) == Some(Canon(v.members[i].value))
  {
    FindAt(v.members, i);
    CanonField(v, v.members[i].key);
  }

  /** The claims of an assertion, read from its canonical payload. */
  lemma AssertionClaims(t: Token, issuer: string)
    requires t.Assertion?
    ensures var p := Canon(Payload(t, issuer));
            && !p.Null? && Field(p, "iss") == Some(Str(issuer)) && Field(p, "sub") == Some(Str(t.id.sub))
            && Field(p, "aud") == Some(Str(issuer)) && Field(p, "client_id") == Some(Str(t.id.clientId))
            && Field(p, "scope") == Some(Str(t.id.scope)) && Field(p, "cnf") == Some(Cnf(t.id.jkt))
            && Field(p, "nonce") == Some(Str(t.nonce)) && Field(p, "iat") == Some(Num(t.iat))
               && Field(p, "exp") == Some(Num(t.exp))
  {
    hide Cnf, Find, WellFormed;
    var v := Payload(t, issuer);
    PayloadWellFormed(t, issuer);
    CnfFields(t.id.jkt);
    CanonAt(v, 0);
    CanonAt(v, 1);
    CanonAt(v, 2);
    CanonAt(v, 3);
    CanonAt(v, 4);
    CanonAt(v, 5);
    CanonAt(v, 6);
    CanonAt(v, 7);
    CanonAt(v, 8);
  }

  lemma AccessClaims(t: Token, issuer: string)
    requires t.Access?
    ensures var p := Canon(Payload(t, issuer));
            && !p.Null? && Field(p, "iss") == Some(Str(issuer)) && Field(p, "sub") == Some(Str(t.id.sub))
            && Field(p, "aud") == Some(Str(t.id.clientId)) && Field(p, "scope") == Some(Str(t.id.scope))
            && Field(p, "cnf") == Some(Cnf(t.id.jkt)) && Field(p, "iat") == Some(Num(t.iat))
            && Field(p, "exp") == Some(Num(t.exp)) && Field(p, "jti") == Some(Str(t.jti))
  {
    hide Cnf, Find, WellFormed;
    var v := Payload(t, issuer);
    PayloadWellFormed(t, issuer);
    CnfFields(t.id.jkt);
    CanonAt(v, 0);
    CanonAt(v, 1);
    CanonAt(v, 2);
    CanonAt(v, 3);
    CanonAt(v, 4);
    CanonAt(v, 5);
    CanonAt(v, 6);
    CanonAt(v, 7);
  }

  lemma RefreshClaims(t: Token, issuer: string)
    requires t.Refresh?
    ensures var p := Canon(Payload(t, issuer));
            && !p.Null? && Field(p, "iss") == Some(Str(issuer)) && Field(p, "sub") == Some(Str(t.id.sub))
            && Field(p, "cnf") == Some(Cnf(t.id.jkt)) && Field(p, "client_id") == Some(Str(t.id.clientId))
            && Field(p, "scope") == Some(Str(t.id.scope)) && Field(p, "iat") == Some(Num(t.iat))
               && Field(p, "exp") == Some(Num(t.exp))
  {
    hide Cnf, Find, WellFormed;
    var v := Payload(t, issuer);
    PayloadWellFormed(t, issuer);
    CnfFields(t.id.jkt);
    CanonAt(v, 0);
    CanonAt(v, 1);
    CanonAt(v, 2);
    CanonAt(v, 3);
    CanonAt(v, 4);
    CanonAt(v, 5);
    CanonAt(v, 6);
  }

  /** The claims a token carries, read from its canonical payload. */
  lemma TokenClaims(t: Token, issuer: string)
    ensures var p := Canon(Payload(t, issuer));
            && !p.Null?
            && Field(p, "iss") == Some(Str(issuer))
            && Field(p, "sub") == Some(Str(t.id.sub))
            && Field(p, "scope") == Some(Str(t.id.scope))
            && Field(p, "cnf") == Some(Cnf(t.id.jkt))
            && Field(p, "iat") == Some(Num(t.iat))
            && Field(p, "exp") == Some(Num(t.exp))
            && (t.Assertion? ==> Field(p, "aud") == Some(Str(issuer)) && Field(p, "nonce") == Some(Str(t.nonce)))
            && (t.Access? ==> Field(p, "aud") == Some(Str(t.id.clientId)) && Field(p, "jti") == Some(Str(t.jti)))
            && (!t.Access? ==> Field(p, "client_id") == Some(Str(t.id.clientId)))
  {
    hide *;
    match t {
      case Assertion(_, _, _, _) => AssertionClaims(t, issuer);
      case Access(_, _, _, _) => AccessClaims(t, issuer);
      case Refresh(_, _, _) => RefreshClaims(t, issuer);
    }
  }

  /** The signed bytes determine the token, the issuer and the key id. */
  lemma MessageInjective(t: Token, issuer: string, kid: string, t': Token, issuer': string, kid': string)
    requires Message(t, issuer, kid) == Message(t', issuer', kid')
    ensures t == t' && issuer == issuer' && kid == kid'
  {
    var h, p, h', p' := Header(Typ(t), kid), Payload(t, issuer), Header(Typ(t'), kid'), Payload(t', issuer');
    HeaderWellFormed(Typ(t), kid);
    HeaderWellFormed(Typ(t'), kid');
    PayloadWellFormed(t, issuer);
    PayloadWellFormed(t', issuer');
    SigningInputExact(h, p, h', p');
    SameMeaningSameCanon(h, h');
    SameMeaningSameCanon(p, p');
    TokenClaims(t, issuer);
    TokenClaims(t', issuer');
    CnfFields(t.id.jkt);
    CnfFields(t'.id.jkt);
    TypTells(t, t');
    hide Header, Payload, Canon, Field, Cnf, Typ;
  }

  lemma TypTells(t: Token, t': Token)
    requires Typ(t) == Typ(t')
    ensures (t.Assertion? <==> t'.Assertion?) && (t.Access? <==> t'.Access?) && (t.Refresh? <==> t'.Refresh?)
  {
    assert "JWT" != "at+jwt" && "JWT" != "refresh+jwt" && |"at+jwt"| != |"refresh+jwt"| by {
      assert |"JWT"| == 3 && |"at+jwt"| == 6 && |"refresh+jwt"| == 11;
    }
  }

  lemma SameMeaningSameCanon(v: Json, w: Json)
    requires WellFormed(v) && WellFormed(w) && Meaning(v) == Meaning(w)
    ensures Canon(v) == Canon(w)
  {
    CanonMeaning(v);
    CanonMeaning(w);
    CanonIsCanonical(v);
    CanonIsCanonical(w);
    CanonicalDetermined(Canon(v), Canon(w));
  }
}
