/** DPoP proofs (RFC 9449), as projects/node/src/client-sdk/dpop.ts makes and checks them. */
module Dpop {
  import opened Arith
  import opened Seqs
  import opened Bytes
  import opened Json
  import opened CanonicalJson
  import opened Suites
  import opened Frost
  import opened Jwt
  import Utf8
  import Base64Url

  function Jwk(x: string): Json
  {
    Obj([Member("kty", Str("OKP")), Member("crv", Str("Ed25519")), Member("x", Str(x))])
  }

  /** The members of a key that its thumbprint is taken of. */
  function ThumbprintKey(x: string): Json
  {
    Obj([Member("crv", Str("Ed25519")), Member("kty", Str("OKP")), Member("x", Str(x))])
  }

  function ThumbprintInput(x: string): Bytes { Utf8.Encode(Stringify(ThumbprintKey(x))) }

  /** The RFC 7638 thumbprint of an OKP key. */
  function Thumbprint(S: Suite, x: string): string { Base64Url.UrlEncode(S.sha256(ThumbprintInput(x))) }

  /** What is hashed is the text of section 3 of RFC 7638, and is read back as exactly the three members. */
  lemma ThumbprintText(x: string)
    ensures Stringify(ThumbprintKey(x)) == "{\"crv\":\"Ed25519\",\"kty\":\"OKP\",\"x\":" + Quote(x) + "}"
    ensures Parse(Stringify(ThumbprintKey(x))) == Some(ThumbprintKey(x))
  {
    hide *;
    KeyReads(x);
    KeyParts(x);
    FixedText();
    JoinedText(Quote(x));
  }

  lemma KeyReads(x: string)
    ensures Stringify(ThumbprintKey(x)) == Text(ThumbprintKey(x))
    ensures Parse(Text(ThumbprintKey(x))) == Some(ThumbprintKey(x))
  {
    hide Text, Parse, Canon, ThumbprintKey;
    KeyCanonical(x);
    CanonOfCanonical(ThumbprintKey(x));
    CanonicalWellFormed(ThumbprintKey(x));
    ParseUndoesText(ThumbprintKey(x));
  }

  /** The members in the order of their keys, with their separators. */
  function KeyText(q: string): string
  {
    Quote("crv") + ":" + Quote("Ed25519") + "," + (Quote("kty") + ":" + Quote("OKP") + "," + (Quote("x") + ":" + q))
  }

  lemma KeyParts(x: string)
    ensures Text(ThumbprintKey(x)) == "{" + KeyText(Quote(x)) + "}"
  {
    hide Quote, MembersText;
    ThreeMembers(ThumbprintKey(x).members);
  }

  lemma JoinedText(q: string)
    requires Quote("crv") == "\"crv\"" && Quote("kty") == "\"kty\"" && Quote("x") == "\"x\""
    requires Quote("Ed25519") == "\"Ed25519\"" && Quote("OKP") == "\"OKP\""
    ensures "{" + KeyText(q) + "}" == "{\"crv\":\"Ed25519\",\"kty\":\"OKP\",\"x\":" + q + "}"
  {
    hide Quote;
    var a, b, c := "\"crv\"" + ":" + "\"Ed25519\"" + ",", "\"kty\"" + ":" + "\"OKP\"" + ",", "\"x\"" + ":";
    assert a == "\"crv\":\"Ed25519\"," && b == "\"kty\":\"OKP\"," && c == "\"x\":";
    assert KeyText(q) == a + (b + (c + q));
    assert "{" + a + b + c == "{\"crv\":\"Ed25519\",\"kty\":\"OKP\",\"x\":" by { PrefixText(); }
    Braced(a, b, c, q);
  }

  lemma PrefixText()
    ensures "{" + "\"crv\":\"Ed25519\"," + "\"kty\":\"OKP\"," + "\"x\":"
            == "{\"crv\":\"Ed25519\",\"kty\":\"OKP\",\"x\":"
  {
  }

  lemma Braced(a: string, b: string, c: string, q: string)
    ensures "{" + (a + (b + (c + q))) + "}" == "{" + a + b + c + q + "}"
  {
  }

  lemma KeyCanonical(x: string)
    ensures IsCanonical(ThumbprintKey(x))
  {
    var ms := ThumbprintKey(x).members;
    assert KeyLess("crv", "kty") && KeyLess("kty", "x") && KeyLess("crv", "x");
    assert forall i :: 0 <= i < |ms| ==> ms[i].value.Str?;
  }

  lemma ThreeMembers(ms: seq<Member>)
    requires |ms| == 3
    ensures MembersText(ms) == Quote(ms[0].key) + ":" + Text(ms[0].value) + ","
                               + (Quote(ms[1].key) + ":" + Text(ms[1].value) + ","
                                  + (Quote(ms[2].key) + ":" + Text(ms[2].value)))
  {
    hide Text, Quote;
    MembersTextUnfold(ms);
    MembersTextUnfold(ms[1..]);
    assert ms[1..][1..] == [ms[2]];
  }

  lemma FixedText()
    ensures Quote("crv") == "\"crv\"" && Quote("kty") == "\"kty\"" && Quote("x") == "\"x\""
    ensures Quote("Ed25519") == "\"Ed25519\"" && Quote("OKP") == "\"OKP\""
  {
    hide Quote;
    PlainQuote("crv");
    PlainQuote("kty");
    PlainQuote("x");
    PlainQuote("Ed25519");
    PlainQuote("OKP");
  }

  /** No character of it needs an escape. */
  predicate PlainString(s: string)
  {
    forall i :: 0 <= i < |s| ==> s[i] as int >= 32 && s[i] != '"' && s[i] != '\\'
  }

  lemma {:induction false} PlainEscapes(s: string)
    requires PlainString(s)
    ensures EscapeAll(s) == s
  {
    if s != "" {
      PlainEscapes(s[1..]);
      assert s == [s[0]] + s[1..];
    }
  }

  lemma PlainQuote(s: string)
    requires PlainString(s)
    ensures Quote(s) == "\"" + s + "\""
  {
    hide EscapeAll;
    PlainEscapes(s);
  }

  /** Two different inputs with one SHA-256. */
  ghost predicate Sha256Coincide(S: Suite, a: Bytes, b: Bytes) { a != b && S.sha256(a) == S.sha256(b) }

  /** A thumbprint belongs to one key, unless SHA-256 collides on the texts of two. */
  lemma ThumbprintExact(S: Suite, x: string, y: string)
    ensures Thumbprint(S, x) == Thumbprint(S, y)
            <==> x == y || Sha256Coincide(S, ThumbprintInput(x), ThumbprintInput(y))
  {
    hide Base64Url.UrlEncode, Utf8.Encode, Stringify, Parse, Quote, ThumbprintKey;
    Base64Url.RoundTrip(S.sha256(ThumbprintInput(x)));
    Base64Url.RoundTrip(S.sha256(ThumbprintInput(y)));
    if ThumbprintInput(x) == ThumbprintInput(y) {
      Utf8.Injective(Stringify(ThumbprintKey(x)), Stringify(ThumbprintKey(y)));
      ThumbprintText(x);
      ThumbprintText(y);
      SameKey(x, y);
    }
  }

  lemma SameKey(x: string, y: string)
    requires ThumbprintKey(x) == ThumbprintKey(y)
    ensures x == y
  {
    assert ThumbprintKey(x).members[2] == ThumbprintKey(y).members[2];
  }

  /** No thumbprint is the empty text that asks for no comparison. */
  lemma ThumbprintLength(S: Suite, x: string)
    requires IsSuite(S)
    ensures Thumbprint(S, x) != ""
  {
    hide ThumbprintInput, Base64Url.UrlEncode, Base64Url.UrlDecode;
    assert HashLaw(S, ThumbprintInput(x));
    Base64Url.RoundTrip(S.sha256(ThumbprintInput(x)));
    Base64Url.RoundTrip([]);
    assert Base64Url.UrlEncode([]) == "" by { NothingEncoded(); }
  }

  lemma NothingEncoded()
    ensures Base64Url.UrlEncode([]) == ""
  {
  }

  function ProofHeader(x: string): Json
  {
    Obj([Member("typ", Str("dpop+jwt")), Member("alg", Str("EdDSA")), Member("jwk", Jwk(x))])
  }

  /** The claims of a proof. Only iat and ath may be missing. */
  function ProofPayload(jti: string, htm: string, htu: string, iat: Option<int>, ath: Option<string>): Json
  {
    Obj([Member("jti", Str(jti)), Member("htm", Str(htm)), Member("htu", Str(htu))]
        + (match iat case Some(n) => [Member("iat", Num(n))] case None => [])
        + (match ath case Some(h) => [Member("ath", Str(h))] case None => []))
  }

  /** The freshness window. A missing or non-numeric iat makes the comparison false, so it passes. */
  function Fresh(S: Suite, iat: Option<Json>, now: int, maxAge: int): bool
  {
    match iat
    case None => true
    case Some(v) =>
      match S.toNumber(v)
      case None => true
      case Some(n) => -maxAge <= now - n <= maxAge
  }

  /** A number bounds the window; anything else leaves it open for ever. */
  lemma FreshnessNeedsNumber(S: Suite, iat: Option<Json>, maxAge: int)
    ensures (forall now :: Fresh(S, iat, now, maxAge)) <==> Undated(S, iat)
  {
    if iat.Some? && S.toNumber(iat.value).Some? {
      assert !Fresh(S, iat, S.toNumber(iat.value).value + maxAge + 1, maxAge);
    }
  }

  /** There is no number to compare the clock with. */
  predicate Undated(S: Suite, iat: Option<Json>) { iat.None? || S.toNumber(iat.value).None? }

  /** The checks of the decoded proof, in order; the result is the thumbprint of its key. */
  function CheckProof(S: Suite, header: Json, payload: Json, signature: Bytes, signed: Bytes,
                      htm: string, htu: string, jkt: string, maxAge: int, now: int): Result<string>
    requires Order(S) > 0
  {
    if header.Null? then Err(BadJson)
    else if Field(header, "typ") != Some(Str("dpop+jwt")) then Err(BadProofTyp)
    else if Field(header, "alg") != Some(Str("EdDSA")) then Err(UnsupportedAlg)
    else
      match Field(header, "jwk")
      case None => Err(BadProofKey)
      case Some(jwk) =>
        if Field(jwk, "kty") != Some(Str("OKP")) || Field(jwk, "crv") != Some(Str("Ed25519")) then Err(BadProofKey)
        else
          match Field(jwk, "x")
          case Some(Str(x)) =>
            if |S.unbase64(x)| != 32 then Err(BadProofKey)
            else if !Verifies(S, signature, signed, S.unbase64(x)) then Err(InvalidSignature)
            else CheckClaims(S, payload, x, htm, htu, jkt, maxAge, now)
          case _ => Err(BadProofKey)
  }

  function CheckClaims(S: Suite, payload: Json, x: string, htm: string, htu: string, jkt: string,
                       maxAge: int, now: int): Result<string>
  {
    match Field(payload, "htm")
    case Some(Str(m)) =>
      if S.upper(m) != S.upper(htm) then Err(HtmMismatch)
      else if Field(payload, "htu") != Some(Str(htu)) then Err(HtuMismatch)
      else if !Fresh(S, Field(payload, "iat"), now, maxAge) then Err(ProofStale)
      else if jkt != "" && Thumbprint(S, x) != jkt then Err(ThumbprintMismatch)
      else Ok(Thumbprint(S, x))
    case _ => Err(BadJson)
  }

  /** verifyDPoPProof. An empty expected thumbprint is falsy, so it is not compared. */
  function VerifyProof(S: Suite, proof: string, htm: string, htu: string, jkt: string, maxAge: int,
                       now: int): Result<string>
    requires Order(S) > 0
  {
    var parts := SplitDots(proof);
    if |parts| != 3 then Err(MalformedJwt)
    else
      match (S.parse(S.unbase64(parts[0])), S.parse(S.unbase64(parts[1])))
      case (Some(header), Some(payload)) =>
        CheckProof(S, header, payload, S.unbase64(parts[2]), Utf8.Encode(SigningText(parts[0], parts[1])),
                   htm, htu, jkt, maxAge, now)
      case (_, _) => Err(BadJson)
  }

  /**
   * A proof is accepted exactly when it decodes to a header of the right kind that carries an Ed25519
   * key, is signed by that key over its own first two parts, says the asked method and URI, is fresh, and
   * the key has the expected thumbprint, if one is expected. What is returned is the key's thumbprint.
   */
  lemma AcceptedProof(S: Suite, proof: string, htm: string, htu: string, jkt: string, maxAge: int, now: int)
    requires IsSuite(S)
    ensures Order(S) > 0
    ensures VerifyProof(S, proof, htm, htu, jkt, maxAge, now).Ok? <==>
            exists x, header, payload ::
              ProofSays(S, proof, header, payload, x) && ProofServes(S, header, payload, x, htm, htu, jkt, maxAge, now)
    ensures VerifyProof(S, proof, htm, htu, jkt, maxAge, now).Ok? ==>
            exists x, header, payload ::
              && VerifyProof(S, proof, htm, htu, jkt, maxAge, now) == Ok(Thumbprint(S, x))
              && ProofSays(S, proof, header, payload, x)
              && ProofServes(S, header, payload, x, htm, htu, jkt, maxAge, now)
  {
    hide IsSuite, Verifies, Thumbprint, SplitDots, Fresh, Find;
    OrderIsPrime(S);
    if VerifyProof(S, proof, htm, htu, jkt, maxAge, now).Ok? {
      var parts := SplitDots(proof);
      var header, payload := S.parse(S.unbase64(parts[0])).value, S.parse(S.unbase64(parts[1])).value;
      var x := Field(Field(header, "jwk").value, "x").value.s;
      assert ProofSays(S, proof, header, payload, x);
      assert ProofServes(S, header, payload, x, htm, htu, jkt, maxAge, now);
    } else {
      forall x, header, payload
        ensures !(ProofSays(S, proof, header, payload, x)
                  && ProofServes(S, header, payload, x, htm, htu, jkt, maxAge, now))
      {
      }
    }
  }

  /** The proof decodes to header and payload and is signed by the key x that its header carries. */
  ghost predicate ProofSays(S: Suite, proof: string, header: Json, payload: Json, x: string)
    requires Order(S) > 0
  {
    var parts := SplitDots(proof);
    && |parts| == 3
    && S.parse(S.unbase64(parts[0])) == Some(header)
    && S.parse(S.unbase64(parts[1])) == Some(payload)
    && Field(header, "jwk").Some? && Field(Field(header, "jwk").value, "x") == Some(Str(x))
    && Verifies(S, S.unbase64(parts[2]), Utf8.Encode(SigningText(parts[0], parts[1])), S.unbase64(x))
  }

  /** Kind, algorithm and key are as RFC 9449 asks, and the claims fit the request. */
  ghost predicate ProofServes(S: Suite, header: Json, payload: Json, x: string, htm: string, htu: string, jkt: string,
                              maxAge: int, now: int)
  {
    && Field(header, "typ") == Some(Str("dpop+jwt")) && Field(header, "alg") == Some(Str("EdDSA"))
    && Field(header, "jwk").Some? && Field(Field(header, "jwk").value, "kty") == Some(Str("OKP"))
    && Field(Field(header, "jwk").value, "crv") == Some(Str("Ed25519")) && |S.unbase64(x)| == 32
    && (exists m :: Field(payload, "htm") == Some(Str(m)) && S.upper(m) == S.upper(htm))
    && Field(payload, "htu") == Some(Str(htu))
    && Fresh(S, Field(payload, "iat"), now, maxAge)
    && (jkt != "" ==> Thumbprint(S, x) == jkt)
  }

  /**
   * A proof accepted for the thumbprint of a key carries that key and is signed by it, or another key
   * whose thumbprint is the same by a collision of SHA-256.
   */
  lemma KeyBound(S: Suite, proof: string, htm: string, htu: string, key: string, maxAge: int, now: int)
      returns (x: string, header: Json, payload: Json)
    requires IsSuite(S)
    ensures Order(S) > 0
    ensures VerifyProof(S, proof, htm, htu, Thumbprint(S, key), maxAge, now).Ok? ==>
              && ProofSays(S, proof, header, payload, x)
              && (x == key || Sha256Coincide(S, ThumbprintInput(x), ThumbprintInput(key)))
  {
    hide *;
    OrderIsPrime(S);
    var jkt := Thumbprint(S, key);
    AcceptedProof(S, proof, htm, htu, jkt, maxAge, now);
    x, header, payload := "", Null, Null;
    if VerifyProof(S, proof, htm, htu, jkt, maxAge, now).Ok? {
      x, header, payload :|
        ProofSays(S, proof, header, payload, x) && ProofServes(S, header, payload, x, htm, htu, jkt, maxAge, now);
      ThumbprintLength(S, key);
      ServesThumbprint(S, header, payload, x, htm, htu, jkt, maxAge, now);
      ThumbprintExact(S, x, key);
    }
  }

  lemma ServesThumbprint(S: Suite, header: Json, payload: Json, x: string, htm: string, htu: string, jkt: string,
                         maxAge: int, now: int)
    requires ProofServes(S, header, payload, x, htm, htu, jkt, maxAge, now) && jkt != ""
    ensures Thumbprint(S, x) == jkt
  {
    hide Thumbprint;
  }

  // ---- How long a proof is accepted --------------------------------------------------

  /** The iat that a proof's payload carries. */
  function ProofIat(S: Suite, proof: string): Option<Json>
  {
    var parts := SplitDots(proof);
    if |parts| != 3 then None
    else match S.parse(S.unbase64(parts[1])) case Some(payload) => Field(payload, "iat") case None => None
  }

  /** A proof that was accepted once is accepted again exactly when its iat is fresh then. */
  lemma AcceptedAgain(S: Suite, proof: string, htm: string, htu: string, jkt: string, maxAge: int, now: int, later: int)
    requires Order(S) > 0 && VerifyProof(S, proof, htm, htu, jkt, maxAge, now).Ok?
    ensures Fresh(S, ProofIat(S, proof), now, maxAge)
    ensures VerifyProof(S, proof, htm, htu, jkt, maxAge, later)
            == if Fresh(S, ProofIat(S, proof), later, maxAge) then VerifyProof(S, proof, htm, htu, jkt, maxAge, now)
               else Err(ProofStale)
  {
    hide Verifies, Thumbprint, SplitDots, Fresh, Find;
  }

  /** A proof that was accepted once is accepted for ever exactly when it carries no numeric iat. */
  lemma NeverStale(S: Suite, proof: string, htm: string, htu: string, jkt: string, maxAge: int, now: int)
    requires Order(S) > 0 && VerifyProof(S, proof, htm, htu, jkt, maxAge, now).Ok?
    ensures (forall later :: VerifyProof(S, proof, htm, htu, jkt, maxAge, later).Ok?)
            <==> Undated(S, ProofIat(S, proof))
  {
    var iat := ProofIat(S, proof);
    FreshnessNeedsNumber(S, iat, maxAge);
    hide Undated;
    forall later
      ensures VerifyProof(S, proof, htm, htu, jkt, maxAge, later).Ok? <==> Fresh(S, iat, later, maxAge)
    {
      AcceptedAgain(S, proof, htm, htu, jkt, maxAge, now, later);
    }
    hide VerifyProof, Fresh;
  }

  // ---- Making proofs -----------------------------------------------------------------

  lemma HeaderOk(x: string)
    ensures WellFormed(ProofHeader(x))
  {
    var h := ProofHeader(x).members;
    assert h[0].value.Str? && h[1].value.Str? && h[2].value == Jwk(x);
    JwkWellFormed(x);
    assert DistinctKeys(h);
  }

  lemma JwkWellFormed(x: string)
    ensures WellFormed(Jwk(x))
    ensures Canon(Jwk(x)).Obj?
    ensures Field(Jwk(x), "kty") == Some(Str("OKP"))
    ensures Field(Jwk(x), "crv") == Some(Str("Ed25519"))
    ensures Field(Jwk(x), "x") == Some(Str(x))
  {
    var ms := Jwk(x).members;
    assert DistinctKeys(ms);
    FindAt(ms, 0);
    FindAt(ms, 1);
    FindAt(ms, 2);
  }

  lemma HeaderFields(x: string)
    ensures Field(Canon(ProofHeader(x)), "typ") == Some(Str("dpop+jwt"))
    ensures Field(Canon(ProofHeader(x)), "alg") == Some(Str("EdDSA"))
    ensures Field(Canon(ProofHeader(x)), "jwk") == Some(Canon(Jwk(x)))
  {
    var h := ProofHeader(x);
    HeaderOk(x);
    FindAt(h.members, 0);
    FindAt(h.members, 1);
    FindAt(h.members, 2);
    CanonField(h, "typ");
    CanonField(h, "alg");
    CanonField(h, "jwk");
    hide Jwk;
  }

  lemma PayloadOk(jti: string, htm: string, htu: string, iat: Option<int>, ath: Option<string>)
    ensures WellFormed(ProofPayload(jti, htm, htu, iat, ath))
  {
    var ms := ProofPayload(jti, htm, htu, iat, ath).members;
    assert DistinctKeys(ms);
    assert forall i :: 0 <= i < |ms| ==> ms[i].value.Str? || ms[i].value.Num?;
  }

  lemma PayloadFields(jti: string, htm: string, htu: string, iat: Option<int>, ath: Option<string>)
    ensures var p := Canon(ProofPayload(jti, htm, htu, iat, ath));
            && Field(p, "htm") == Some(Str(htm)) && Field(p, "htu") == Some(Str(htu))
            && Field(p, "iat") == match iat case Some(n) => Some(Num(n)) case None => None
  {
    var p := ProofPayload(jti, htm, htu, iat, ath);
    var ms := p.members;
    PayloadOk(jti, htm, htu, iat, ath);
    FindAt(ms, 1);
    FindAt(ms, 2);
    if iat.Some? {
      FindAt(ms, 3);
    } else {
      FindNone(ms, "iat");
      assert forall i :: 0 <= i < |ms| ==> ms[i].key != "iat";
    }
    hide ProofPayload, Canon;
    CanonField(p, "htm");
    CanonField(p, "htu");
    CanonField(p, "iat");
    CanonOfString(htm);
    CanonOfString(htu);
    if iat.Some? {
      CanonOfNumber(iat.value);
    }
  }

  lemma CanonOfNumber(n: int)
    ensures Canon(Num(n)) == Num(n)
  {
  }

  /** The hash that ties a proof to an access token; an empty token is as good as none. */
  function TokenHash(S: Suite, accessToken: Option<string>): Option<string>
  {
    match accessToken
    case Some(t) => if t == "" then None else Some(Base64Url.UrlEncode(S.sha256(Utf8.Encode(t))))
    case None => None
  }

  /** The text of a proof by the given key. */
  function ProofText(publicKey: Bytes, payload: Json, signature: Bytes): string
  {
    Assemble(Segment(ProofHeader(Base64Url.UrlEncode(publicKey))), Segment(payload), signature)
  }

  /** What createDPoPProof puts into the payload. */
  function CreatedPayload(S: Suite, jti: string, htm: string, htu: string, iat: int, accessToken: Option<string>): Json
  {
    ProofPayload(jti, S.upper(htm), htu, Some(iat), TokenHash(S, accessToken))
  }

  /** createDPoPProof, for a signature made over the proof's signing input. */
  function CreateProof(S: Suite, publicKey: Bytes, jti: string, htm: string, htu: string, iat: int,
                       accessToken: Option<string>, signature: Bytes): string
  {
    ProofText(publicKey, CreatedPayload(S, jti, htm, htu, iat, accessToken), signature)
  }

  /** What a created proof says: a fresh jti, the method in upper case, and the hash of its access token, if any. */
  lemma CreatedSays(S: Suite, publicKey: Bytes, jti: string, htm: string, htu: string, iat: int,
                    accessToken: Option<string>, signature: Bytes)
    requires IsSuite(S)
    ensures var parts := SplitDots(CreateProof(S, publicKey, jti, htm, htu, iat, accessToken, signature));
            |parts| == 3 && S.parse(S.unbase64(parts[1])).Some?
            && var p := S.parse(S.unbase64(parts[1])).value;
            && Field(p, "jti") == Some(Str(jti)) && Field(p, "htm") == Some(Str(S.upper(htm)))
            && Field(p, "htu") == Some(Str(htu)) && Field(p, "iat") == Some(Num(iat))
            && Field(p, "ath")
               == match accessToken
                  case Some(t) => if t == "" then None else Some(Str(Base64Url.UrlEncode(S.sha256(Utf8.Encode(t)))))
                  case None => None
  {
    hide IsSuite, Segment, Canon, Find, ProofHeader, ProofPayload, Assemble, Base64Url.UrlEncode, SplitDots,
      Utf8.Encode;
    var h := ProofHeader(Base64Url.UrlEncode(publicKey));
    var m, ath := S.upper(htm), TokenHash(S, accessToken);
    var p := ProofPayload(jti, m, htu, Some(iat), ath);
    AssembledSplits(h, p, signature);
    PayloadOk(jti, m, htu, Some(iat), ath);
    SegmentReads(S, p);
    PayloadFields(jti, m, htu, Some(iat), ath);
    TokenFields(jti, m, htu, Some(iat), ath);
  }

  lemma TokenFields(jti: string, htm: string, htu: string, iat: Option<int>, ath: Option<string>)
    ensures var p := Canon(ProofPayload(jti, htm, htu, iat, ath));
            && Field(p, "jti") == Some(Str(jti))
            && Field(p, "ath") == match ath case Some(h) => Some(Str(h)) case None => None
  {
    var p := ProofPayload(jti, htm, htu, iat, ath);
    var ms := p.members;
    PayloadOk(jti, htm, htu, iat, ath);
    FindAt(ms, 0);
    if ath.Some? {
      FindAt(ms, |ms| - 1);
    } else {
      FindNone(ms, "ath");
      assert forall i :: 0 <= i < |ms| ==> ms[i].key != "ath";
    }
    hide ProofPayload, Canon;
    CanonField(p, "jti");
    CanonField(p, "ath");
    CanonOfString(jti);
    if ath.Some? {
      CanonOfString(ath.value);
    }
  }

  /** The signature is the key's over the proof's own header and payload. */
  ghost predicate SignedProof(S: Suite, publicKey: Bytes, payload: Json, signature: Bytes)
    requires Order(S) > 0
  {
    |publicKey| == 32
    && Verifies(S, signature, SigningInput(ProofHeader(Base64Url.UrlEncode(publicKey)), payload), publicKey)
  }

  /** The verdict on a well-signed proof for the right method, URI and key: its iat decides, if it has one. */
  lemma SignedProofVerdict(S: Suite, publicKey: Bytes, jti: string, m: string, htm: string, htu: string,
                           iat: Option<int>, ath: Option<string>, signature: Bytes, jkt: string, maxAge: int, now: int)
    requires IsSuite(S) && S.upper(m) == S.upper(htm)
    requires jkt == "" || jkt == Thumbprint(S, Base64Url.UrlEncode(publicKey))
    requires SignedProof(S, publicKey, ProofPayload(jti, m, htu, iat, ath), signature)
    ensures VerifyProof(S, ProofText(publicKey, ProofPayload(jti, m, htu, iat, ath), signature), htm, htu, jkt, maxAge,
                        now)
            == if iat.Some? && !(-maxAge <= now - iat.value <= maxAge) then Err(ProofStale)
               else Ok(Thumbprint(S, Base64Url.UrlEncode(publicKey)))
  {
    hide IsSuite, Segment, Verifies, Thumbprint, Canon, Find, ProofHeader, ProofPayload, CheckProof, Assemble,
      Base64Url.UrlEncode, VerifyProof, SplitDots;
    OrderIsPrime(S);
    var x := Base64Url.UrlEncode(publicKey);
    var h, p := ProofHeader(x), ProofPayload(jti, m, htu, iat, ath);
    Unbase64Of(S, publicKey);
    Unbase64Of(S, signature);
    AssembledSplits(h, p, signature);
    HeaderOk(x);
    PayloadOk(jti, m, htu, iat, ath);
    SegmentReads(S, h);
    SegmentReads(S, p);
    ProofFromParts(S, ProofText(publicKey, p, signature), Segment(h), Segment(p), Base64Url.UrlEncode(signature),
                   Canon(h), Canon(p), htm, htu, jkt, maxAge, now);
    ProofChecks(S, x, jti, m, htm, htu, iat, ath, signature, SigningInput(h, p), jkt, maxAge, now);
  }

  /** A proof that was made for a request is accepted for it while fresh, and names its own key. */
  lemma CreatedProofAccepted(S: Suite, publicKey: Bytes, jti: string, htm: string, htu: string, iat: int,
                             accessToken: Option<string>, signature: Bytes, jkt: string, maxAge: int, now: int)
    requires IsSuite(S) && (jkt == "" || jkt == Thumbprint(S, Base64Url.UrlEncode(publicKey)))
    requires SignedProof(S, publicKey, CreatedPayload(S, jti, htm, htu, iat, accessToken), signature)
    ensures VerifyProof(S, CreateProof(S, publicKey, jti, htm, htu, iat, accessToken, signature), htm, htu, jkt, maxAge,
                        now)
            == if -maxAge <= now - iat <= maxAge then Ok(Thumbprint(S, Base64Url.UrlEncode(publicKey)))
               else Err(ProofStale)
  {
    hide IsSuite, SignedProof, VerifyProof, ProofText, Thumbprint;
    OrderIsPrime(S);
    UpperTwice(S, htm);
    SignedProofVerdict(S, publicKey, jti, S.upper(htm), htm, htu, Some(iat), TokenHash(S, accessToken), signature, jkt,
                       maxAge, now);
  }

  /** A well-signed proof without an iat is accepted at every moment. */
  lemma UndatedProofAccepted(S: Suite, publicKey: Bytes, jti: string, htm: string, htu: string, ath: Option<string>,
                             signature: Bytes, jkt: string, maxAge: int, now: int)
    requires IsSuite(S) && (jkt == "" || jkt == Thumbprint(S, Base64Url.UrlEncode(publicKey)))
    requires SignedProof(S, publicKey, ProofPayload(jti, htm, htu, None, ath), signature)
    ensures VerifyProof(S, ProofText(publicKey, ProofPayload(jti, htm, htu, None, ath), signature), htm, htu, jkt,
                        maxAge, now)
            == Ok(Thumbprint(S, Base64Url.UrlEncode(publicKey)))
  {
    hide IsSuite, SignedProof, VerifyProof, ProofText, ProofPayload, Thumbprint;
    OrderIsPrime(S);
    SignedProofVerdict(S, publicKey, jti, htm, htm, htu, None, ath, signature, jkt, maxAge, now);
  }

  lemma ProofFromParts(S: Suite, proof: string, a: string, b: string, c: string, h: Json, p: Json, htm: string,
                       htu: string, jkt: string, maxAge: int, now: int)
    requires Order(S) > 0 && SplitDots(proof) == [a, b, c]
    requires S.parse(S.unbase64(a)) == Some(h) && S.parse(S.unbase64(b)) == Some(p)
    ensures VerifyProof(S, proof, htm, htu, jkt, maxAge, now)
            == CheckProof(S, h, p, S.unbase64(c), Utf8.Encode(SigningText(a, b)), htm, htu, jkt, maxAge, now)
  {
    hide CheckProof, SplitDots;
  }

  lemma ProofChecks(S: Suite, x: string, jti: string, m: string, htm: string, htu: string, iat: Option<int>,
                    ath: Option<string>, signature: Bytes, signed: Bytes, jkt: string, maxAge: int, now: int)
    requires IsSuite(S) && |S.unbase64(x)| == 32 && S.upper(m) == S.upper(htm)
    requires Verifies(S, signature, signed, S.unbase64(x))
    requires jkt == "" || jkt == Thumbprint(S, x)
    ensures CheckProof(S, Canon(ProofHeader(x)), Canon(ProofPayload(jti, m, htu, iat, ath)), signature, signed,
                       htm, htu, jkt, maxAge, now)
            == if iat.Some? && !(-maxAge <= now - iat.value <= maxAge) then Err(ProofStale) else Ok(Thumbprint(S, x))
  {
    hide IsSuite, Verifies, Thumbprint, Canon, Find, ProofHeader, ProofPayload, Jwk, CheckClaims;
    OrderIsPrime(S);
    HeaderFields(x);
    PayloadFields(jti, m, htu, iat, ath);
    JwkFields(x);
    ProofNotNull(x);
    ClaimChecks(S, Canon(ProofPayload(jti, m, htu, iat, ath)), x, m, htm, htu, iat, jkt, maxAge, now);
  }

  lemma JwkFields(x: string)
    ensures Field(Canon(Jwk(x)), "kty") == Some(Str("OKP"))
    ensures Field(Canon(Jwk(x)), "crv") == Some(Str("Ed25519"))
    ensures Field(Canon(Jwk(x)), "x") == Some(Str(x))
  {
    hide Canon, Find, Jwk;
    JwkWellFormed(x);
    CanonField(Jwk(x), "kty");
    CanonField(Jwk(x), "crv");
    CanonField(Jwk(x), "x");
    CanonOfString("OKP");
    CanonOfString("Ed25519");
    CanonOfString(x);
  }

  lemma CanonOfString(s: string)
    ensures Canon(Str(s)) == Str(s)
  {
  }

  lemma ClaimChecks(S: Suite, p: Json, x: string, m: string, htm: string, htu: string, iat: Option<int>, jkt: string,
                    maxAge: int, now: int)
    requires IsSuite(S) && S.upper(m) == S.upper(htm) && Field(p, "htm") == Some(Str(m))
             && Field(p, "htu") == Some(Str(htu))
    requires Field(p, "iat") == match iat case Some(n) => Some(Num(n)) case None => None
    requires jkt == "" || jkt == Thumbprint(S, x)
    ensures CheckClaims(S, p, x, htm, htu, jkt, maxAge, now)
            == if iat.Some? && !(-maxAge <= now - iat.value <= maxAge) then Err(ProofStale) else Ok(Thumbprint(S, x))
  {
    hide IsSuite, Thumbprint, Find;
    if iat.Some? {
      ToNumberOf(S, iat.value);
    }
  }

  lemma ProofNotNull(x: string)
    ensures !Canon(ProofHeader(x)).Null?
  {
  }
}
