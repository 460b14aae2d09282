/**
 * The browser side of sign-on, as projects/demo/src/sdk/client.ts does it: blind the password, and from
 * the relayed answers rebuild the signed bytes, recover the keys, decrypt the shares and aggregate them.
 */
module Client {
  import opened Arith
  import opened Seqs
  import opened Bytes
  import opened Json
  import opened Suites
  import opened Frost
  import opened Jwt
  import opened Tokens
  import opened Node
  import opened Gateway
  import Toprf
  import Utf8
  import Base64Url

  const ASSERTION_LIFETIME := 30

  /** The key id the browser writes into every header, whatever the nodes use. */
  const KEY_ID := "pasta-group-key-1"

  datatype SignOnOptions = SignOnOptions(username: string, password: string, nonce: string, clientId: string,
                                         scope: string, participants: Option<seq<int>>)

  datatype StoredSession = StoredSession(sessionId: string, sub: string, cnfJkt: string)

  /** What the browser draws and reads for one sign-on. */
  datatype Draws = Draws(now: int, r: int, sessionNonce: Bytes)

  /** The request that leaves the browser. */
  function Body(S: Suite, issuer: string, cnfJkt: string, o: SignOnOptions, d: Draws): SignOnBody
  {
    SignOnBody(o.username, Base64Url.UrlEncode(Toprf.Blind(S, Utf8.Encode(o.password), d.r)),
               Base64Url.UrlEncode(d.sessionNonce), cnfJkt, o.clientId, o.scope, o.nonce,
               d.now, d.now + ASSERTION_LIFETIME, issuer, o.participants)
  }

  function SubOf(relayed: Relayed, o: SignOnOptions): string
  {
    if relayed.responses != [] && relayed.responses[0].sub != "" then relayed.responses[0].sub else o.username
  }

  function AssertionPayload(issuer: string, sub: string, cnfJkt: string, o: SignOnOptions, now: int): Json
  {
    Obj([Member("iss", Str(issuer)), Member("sub", Str(sub)), Member("aud", Str(issuer)),
         Member("client_id", Str(o.clientId)), Member("scope", Str(o.scope)), Member("cnf", Cnf(cnfJkt)),
         Member("nonce", Str(o.nonce)), Member("iat", Num(now)), Member("exp", Num(now + ASSERTION_LIFETIME))])
  }

  /** The partial evaluations in the answers, as points. */
  function PartialsIn(S: Suite, responses: seq<SignOnResponse>): Result<seq<Toprf.Partial>>
  {
    if responses == [] then Ok([])
    else
      match PartialsIn(S, Front(responses))
      case Err(e) => Err(e)
      case Ok(partials) =>
        match Base64Url.UrlDecode(Last(responses).toprfPartial)
        case None => Err(BadBase64)
        case Some(point) =>
          if !S.ristretto.valid(point) then Err(BadPoint)
          else Ok(partials + [Toprf.Partial(Last(responses).nodeId, point)])
  }

  /** aeadDecrypt: key and nonce of the wrong length fail like a wrong tag. */
  function Decrypt(S: Suite, key: Bytes, nonce: Bytes, ct: string, aad: Bytes): Option<Bytes>
  {
    match Base64Url.UrlDecode(ct)
    case None => None
    case Some(bytes) => if |key| != 32 || |nonce| != 12 then None else S.open(key, nonce, bytes, aad)
  }

  /** One turn of the decrypt loop. */
  function OpenShare(S: Suite, h: Bytes, sessionNonce: Bytes, msg: Bytes, resp: SignOnResponse): Result<int>
  {
    match Decrypt(S, Toprf.DeriveServerKey(S, h, resp.nodeId), AeadNonce(S, sessionNonce, resp.nodeId), resp.ciphertext,
                  msg)
    case None => Err(ShareNotDecrypted)
    case Some(text) =>
      match S.parse(text)
      case None => Err(BadJson)
      case Some(bundle) =>
        match Field(bundle, "z_i")
        case None => Err(BadScalar)
        case Some(v) =>
          match S.toBigInt(v)
          case None => Err(BadScalar)
          case Some(z) => Ok(z)
  }

  function OpenShares(S: Suite, h: Bytes, sessionNonce: Bytes, msg: Bytes,
                      responses: seq<SignOnResponse>): Result<seq<int>>
  {
    if responses == [] then Ok([])
    else
      match OpenShares(S, h, sessionNonce, msg, Front(responses))
      case Err(e) => Err(e)
      case Ok(zs) =>
        match OpenShare(S, h, sessionNonce, msg, Last(responses))
        case Err(e) => Err(e)
        case Ok(z) => Ok(zs + [z])
  }

  /** The assertion that sign-on ends with, or the step at which it fails. */
  ghost function SignedOn(S: Suite, issuer: string, cnfJkt: string, o: SignOnOptions, d: Draws,
                          relayed: Relayed): Result<string>
    requires Order(S) > 0 && S.ristretto.order > 0
  {
    var header, payload := Header("JWT", KEY_ID), AssertionPayload(issuer, SubOf(relayed, o), cnfJkt, o, d.now);
    var msg := SigningInput(header, payload);
    match PartialsIn(S, relayed.responses)
    case Err(e) => Err(e)
    case Ok(partials) =>
      match Toprf.Unblinded(S, d.r, partials)
      case Err(e) => Err(e)
      case Ok(v) =>
        match OpenShares(S, Toprf.Finalize(S, Utf8.Encode(o.password), v), d.sessionNonce, msg, relayed.responses)
        case Err(e) => Err(e)
        case Ok(zs) => AssembleToken(S, header, payload, relayed.commitments, zs)
  }

  class DecentralizedClientSdk {
    const suite: Suite
    const issuer: string
    const cnfJkt: string
    var currentSession: Option<StoredSession>

    /** What the source does in its constructor: an empty thumbprint is refused. */
    static method Create(S: Suite, issuer: string, cnfJkt: string) returns (r: Result<DecentralizedClientSdk>)
      ensures cnfJkt == "" ==> r == Err(ThumbprintMissing)
      ensures cnfJkt != "" ==> r.Ok? && fresh(r.value) && r.value.suite == S && r.value.issuer == issuer
                               && r.value.cnfJkt == cnfJkt && r.value.currentSession == None
    {
      if |cnfJkt| == 0 {
        return Err(ThumbprintMissing);
      }
      var sdk := new DecentralizedClientSdk(S, issuer, cnfJkt);
      return Ok(sdk);
    }

    constructor (S: Suite, issuer: string, cnfJkt: string)
      ensures suite == S && this.issuer == issuer && this.cnfJkt == cnfJkt && currentSession == None
    {
      this.suite := S;
      this.issuer := issuer;
      this.cnfJkt := cnfJkt;
      currentSession := None;
    }

    /** Sign-on from the moment the gateway's answer is there. A failure keeps the earlier session. */
    method SignOn(o: SignOnOptions, d: Draws, relayed: Relayed) returns (assertion: Result<string>)
      requires IsSuite(suite)
      modifies this
      ensures assertion == SignedOn(suite, issuer, cnfJkt, o, d, relayed)
      ensures currentSession == if assertion.Ok? then Some(StoredSession(relayed.sessionId, SubOf(relayed, o), cnfJkt))
                                else old(currentSession)
    {
      hide IsSuite, Toprf.Unblinded, Header, AssertionPayload, SigningInput, OpenShare, GroupCommitment;
      OrderIsPrime(suite);
      var sub := SubOf(relayed, o);
      var header, payload := Header("JWT", KEY_ID), AssertionPayload(issuer, sub, cnfJkt, o, d.now);
      var signingInput := SigningInput(header, payload);
      var partials := PartialsIn(suite, relayed.responses);
      if partials.Err? {
        return Err(partials.error);
      }
      var v := Toprf.Unblind(suite, d.r, partials.value);
      if v.Err? {
        return Err(v.error);
      }
      var h := Toprf.Finalize(suite, Utf8.Encode(o.password), v.value);
      var shares := DecryptShares(h, d.sessionNonce, signingInput, relayed.responses);
      if shares.Err? {
        return Err(shares.error);
      }
      var R := ComputeGroupCommitment(suite, signingInput, relayed.commitments);
      if R.Err? {
        return Err(R.error);
      }
      var signature := AggregateSignatureShares(R.value, shares.value, Order(suite));
      currentSession := Some(StoredSession(relayed.sessionId, sub, cnfJkt));
      return Ok(Assemble(Segment(header), Segment(payload), signature));
    }

    method DecryptShares(h: Bytes, sessionNonce: Bytes, msg: Bytes, responses: seq<SignOnResponse>)
        returns (zs: Result<seq<int>>)
      ensures zs == OpenShares(suite, h, sessionNonce, msg, responses)
    {
      hide OpenShare;
      var shares: seq<int> := [];
      for i := 0 to |responses|
        invariant OpenShares(suite, h, sessionNonce, msg, responses[..i]) == Ok(shares)
      {
        PrefixStep(responses, i);
        var z := OpenShare(suite, h, sessionNonce, msg, responses[i]);
        if z.Err? {
          FailedEarly(suite, h, sessionNonce, msg, responses, i + 1, z.error);
          return Err(z.error);
        }
        shares := shares + [z.value];
      }
      assert responses[..|responses|] == responses;
      return Ok(shares);
    }
  }

  /** The first answer that does not open decides the outcome. */
  lemma {:induction false} FailedEarly(S: Suite, h: Bytes, sessionNonce: Bytes, msg: Bytes,
                                       responses: seq<SignOnResponse>, i: nat, e: Error)
    requires i <= |responses| && OpenShares(S, h, sessionNonce, msg, responses[..i]) == Err(e)
    ensures OpenShares(S, h, sessionNonce, msg, responses) == Err(e)
  {
    hide OpenShare;
    if i == |responses| {
      assert responses[..i] == responses;
    } else {
      assert Front(responses)[..i] == responses[..i];
      FailedEarly(S, h, sessionNonce, msg, Front(responses), i, e);
    }
  }
}
