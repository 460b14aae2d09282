/**
 * The stateless gateway of projects/gateway/src/gateway/proxy.ts: it collects a quorum's commitments,
 * relays the second round, and assembles the tokens. What it and the nodes cannot choose, the drawn
 * nonces, the clocks and the calls that fail, are arguments.
 */
module Gateway {
  import opened Arith
  import opened Seqs
  import opened Bytes
  import opened Json
  import opened Suites
  import opened Frost
  import opened Signing
  import opened Jwt
  import opened Tokens
  import opened Node
  import Hex
  import Utf8
  import Base64Url

  const ACCESS_TOKEN_LIFETIME := 3600
  const REFRESH_TOKEN_LIFETIME := 86400 * 30

  /** A node as the gateway reaches it. */
  datatype Peer = Peer(cfg: Settings, st: State)

  datatype SignOnBody = SignOnBody(
    username: string, blinded: string, sessionNonce: string, cnfJkt: string, clientId: string, scope: string,
    nonce: string, iat: int, exp: int, iss: string, participants: Option<seq<int>>)

  datatype Relayed = Relayed(sessionId: string, commitments: seq<Commitment>, responses: seq<SignOnResponse>)

  datatype Issued = Issued(accessToken: string, refreshToken: string, expiresIn: int, scope: string, cnfJkt: string)

  /** How one commit call ended. */
  datatype Outcome = Committed(c: Commitment) | Failed(nodeId: int)

  datatype Round = Round(commitments: seq<Commitment>, participants: seq<int>, excluded: seq<int>)

  /** The shares of one answered sign call, as scalars. */
  datatype Shares = Shares(access: int, refresh: int)

  // ---- Round one ---------------------------------------------------------------------

  function AskedIn(settled: seq<Outcome>): (ids: seq<int>)
    ensures |ids| == |settled|
    ensures forall i :: 0 <= i < |settled| ==>
              ids[i] == match settled[i] case Committed(c) => c.nodeId case Failed(id) => id
  {
    seq(|settled|,
        i requires 0 <= i < |settled| => match settled[i] case Committed(c) => c.nodeId case Failed(id) => id)
  }

  function CommitmentsIn(settled: seq<Outcome>): seq<Commitment>
  {
    if settled == [] then []
    else CommitmentsIn(Front(settled)) + match Last(settled) case Committed(c) => [c] case Failed(_) => []
  }

  function FailuresIn(settled: seq<Outcome>): seq<int>
  {
    if settled == [] then []
    else FailuresIn(Front(settled)) + match Last(settled) case Committed(_) => [] case Failed(id) => [id]
  }

  predicate NumberLeq(m: int, n: int) { m <= n }

  function SortNumbers(s: seq<int>): seq<int> { SortBy(NumberLeq, s) }

  /** collectCommitments, once every commit call has ended. */
  function Collect(settled: seq<Outcome>, explicit: bool, threshold: int): Result<Round>
  {
    var failures := FailuresIn(settled);
    if explicit && failures != [] then Err(NotAllCommitted)
    else
      var commitments := SortById(CommitmentsIn(settled));
      if |commitments| < threshold then Err(QuorumTooSmall(|commitments|, threshold, SortNumbers(failures)))
      else Ok(Round(commitments, CommitmentIds(commitments), SortNumbers(failures)))
  }

  /** The commit calls of one round, in the order they were asked for. */
  function CommitAll(S: Suite, peers: map<int, Peer>, roundId: string, ids: seq<int>, draws: nat -> Option<Nonces>)
    : (map<int, Peer>, seq<Outcome>)
  {
    if ids == [] then (peers, [])
    else
      var (peers', settled) := CommitAll(S, peers, roundId, Front(ids), draws);
      var id := Last(ids);
      if id !in peers' || draws(|ids| - 1).None? then (peers', settled + [Failed(id)])
      else
        var p, nonces := peers'[id], draws(|ids| - 1).value;
        (peers'[id := Peer(p.cfg, Commit(p.st, roundId, nonces))], settled + [Committed(PublishedBy(S, id, nonces))])
  }

  // ---- Round two ---------------------------------------------------------------------

  /** Promise.all: the values, or an error when any call failed. */
  function AllOk<T>(results: seq<Result<T>>): (r: Result<seq<T>>)
    ensures r.Ok? <==> forall i :: 0 <= i < |results| ==> results[i].Ok?
    ensures r.Ok? ==> |r.value| == |results| && forall i :: 0 <= i < |results| ==> results[i] == Ok(r.value[i])
  {
    if results == [] then Ok([])
    else
      match AllOk(Front(results))
      case Err(e) => Err(e)
      case Ok(values) =>
        match Last(results)
        case Err(e) => Err(e)
        case Ok(v) => Ok(values + [v])
  }

  function NodeRequest(body: SignOnBody, sessionId: string, round: Round): SignOnRequest
  {
    SignOnRequest(sessionId, body.username, body.blinded, body.sessionNonce, body.cnfJkt, body.clientId, body.scope,
                  body.nonce, body.iat, body.exp, body.iss, round.commitments, round.participants)
  }

  /** The sign-on calls, one per commitment. A clock reading of None is a call that failed. */
  function SignOnAll(S: Suite, peers: map<int, Peer>, roundId: string, req: SignOnRequest, commitments: seq<Commitment>,
                     clocks: nat -> Option<int>): (map<int, Peer>, seq<Result<SignOnResponse>>)
    requires Order(S) > 0
  {
    if commitments == [] then (peers, [])
    else
      var (peers', results) := SignOnAll(S, peers, roundId, req, Front(commitments), clocks);
      var c := Last(commitments);
      if c.nodeId !in peers' || clocks(|commitments| - 1).None? then (peers', results + [Err(NodeUnreachable)])
      else
        var p := peers'[c.nodeId];
        var (st, r) := SignOn(S, p.cfg, p.st, roundId, req, c, clocks(|commitments| - 1).value);
        (peers'[c.nodeId := Peer(p.cfg, st)], results + [r])
  }

  function Requested(ids: seq<int>, participants: Option<seq<int>>): seq<int>
  {
    match participants case Some(p) => p case None => ids
  }

  /** handleSignOn */
  function RelaySignOn(S: Suite, peers: map<int, Peer>, ids: seq<int>, threshold: int, body: SignOnBody,
                       roundId: string, sessionId: string, draws: nat -> Option<Nonces>, clocks: nat -> Option<int>)
    : (map<int, Peer>, Result<Relayed>)
    requires Order(S) > 0
  {
    var requested := Requested(ids, body.participants);
    if |requested| < threshold then (peers, Err(QuorumTooSmall(|requested|, threshold, [])))
    else
      var (peers1, settled) := CommitAll(S, peers, roundId, requested, draws);
      match Collect(settled, body.participants.Some?, threshold)
      case Err(e) => (peers1, Err(e))
      case Ok(round) =>
        var (peers2, results) :=
          SignOnAll(S, peers1, roundId, NodeRequest(body, sessionId, round), round.commitments, clocks);
        match AllOk(results)
        case Err(e) => (peers2, Err(e))
        case Ok(responses) => (peers2, Ok(Relayed(sessionId, round.commitments, responses)))
  }

  // ---- Token issue -------------------------------------------------------------------

  /** decodeCredentialClaims: the identity in a credential that nobody has verified yet. */
  function DecodeCredentialClaims(S: Suite, credential: string): Result<Identity>
  {
    var parts := SplitDots(credential);
    if |parts| != 3 then Err(InvalidCredential)
    else
      match S.parse(S.unbase64(parts[1]))
      case None => Err(InvalidCredential)
      case Some(payload) =>
        if !payload.Obj? && !payload.Arr? then Err(InvalidCredential)
        else
          var jkt := match Field(payload, "cnf") case Some(cnf) => Claim(cnf, "jkt") case None => Err(ClaimMissing);
          var sub, clientId := Claim(payload, "sub"), Claim(payload, "client_id");
          if jkt.Err? || sub.Err? || clientId.Err? then Err(InvalidCredential)
          else Ok(Identity(sub.value, clientId.value, TextOr(Field(payload, "scope"), ""), jkt.value))
  }

  function AccessPayload(id: Identity, issuer: string, iat: int, exp: int, jti: string): Json
  {
    Obj([Member("iss", Str(issuer)), Member("sub", Str(id.sub)), Member("aud", Str(id.clientId)),
         Member("scope", Str(id.scope)), Member("cnf", Cnf(id.jkt)),
         Member("iat", Num(iat)), Member("exp", Num(exp)), Member("jti", Str(jti))])
  }

  function RefreshPayload(id: Identity, issuer: string, iat: int, exp: int): Json
  {
    Obj([Member("iss", Str(issuer)), Member("sub", Str(id.sub)), Member("cnf", Cnf(id.jkt)),
         Member("client_id", Str(id.clientId)), Member("scope", Str(id.scope)),
         Member("iat", Num(iat)), Member("exp", Num(exp))])
  }

  /** assembleToken: aggregates the shares of one JWT and puts the JWT together. */
  function AssembleToken(S: Suite, header: Json, payload: Json, commitments: seq<Commitment>,
                         shares: seq<int>): Result<string>
    requires Order(S) > 0
  {
    match GroupCommitment(S, SigningInput(header, payload), commitments)
    case Err(e) => Err(e)
    case Ok(R) => Ok(Assemble(Segment(header), Segment(payload), Aggregate(R, shares, Order(S))))
  }

  function FindCommitment(commitments: seq<Commitment>, id: int): Option<Commitment>
  {
    if commitments == [] then None
    else if commitments[0].nodeId == id then Some(commitments[0])
    else FindCommitment(commitments[1..], id)
  }

  function TokenRequest(grant: Grant, credential: string, dpopProof: string, iat: int, jti: string, access: Round,
                        refresh: Round)
    : SignRequest
  {
    SignRequest(grant,
                if grant.AuthorizationCode? then Some(credential) else None,
                if grant.RefreshToken? then Some(credential) else None,
                dpopProof, iat, iat + ACCESS_TOKEN_LIFETIME, jti, Some(iat + REFRESH_TOKEN_LIFETIME),
                access.commitments, refresh.commitments, access.participants)
  }

  /** A node's answer with its two hexadecimal scalars read. */
  function ReadShares(r: Result<SignResponse>): Result<Shares>
  {
    match r
    case Err(e) => Err(e)
    case Ok(v) =>
      match (Hex.HexToScalar(v.accessShare), Hex.HexToScalar(v.refreshShare))
      case (Ok(a), Ok(b)) => Ok(Shares(a, b))
      case (_, _) => Err(BadScalar)
  }

  function SignAll(S: Suite, peers: map<int, Peer>, accessRound: string, refreshRound: string, req: SignRequest,
                   commitments: seq<Commitment>, clocks: nat -> Option<int>): (map<int, Peer>, seq<Result<Shares>>)
    requires Order(S) > 0
  {
    if commitments == [] then (peers, [])
    else
      var (peers', results) := SignAll(S, peers, accessRound, refreshRound, req, Front(commitments), clocks);
      var c := Last(commitments);
      match FindCommitment(req.refreshCommitments, c.nodeId)
      case None => (peers', results + [Err(CommitmentMissing)])
      case Some(rc) =>
        if c.nodeId !in peers' || clocks(|commitments| - 1).None? then (peers', results + [Err(NodeUnreachable)])
        else
          var p := peers'[c.nodeId];
          var (st, r) := Sign(S, p.cfg, p.st, accessRound, refreshRound, req, c, rc, clocks(|commitments| - 1).value);
          (peers'[c.nodeId := Peer(p.cfg, st)], results + [ReadShares(r)])
  }

  function AccessShares(shares: seq<Shares>): (zs: seq<int>)
    ensures |zs| == |shares| && forall i :: 0 <= i < |zs| ==> zs[i] == shares[i].access
  {
    seq(|shares|, i requires 0 <= i < |shares| => shares[i].access)
  }

  function RefreshShares(shares: seq<Shares>): (zs: seq<int>)
    ensures |zs| == |shares| && forall i :: 0 <= i < |zs| ==> zs[i] == shares[i].refresh
  {
    seq(|shares|, i requires 0 <= i < |shares| => shares[i].refresh)
  }

  /** The two tokens, from the shares of both rounds. */
  function Synthesise(S: Suite, claims: Identity, issuer: string, keyId: string, iat: int, jti: string,
                      access: Round, refresh: Round, shares: seq<Shares>): Result<Issued>
    requires Order(S) > 0
  {
    var at := AssembleToken(S, Header("at+jwt", keyId),
                            AccessPayload(claims, issuer, iat, iat + ACCESS_TOKEN_LIFETIME, jti),
                            access.commitments, AccessShares(shares));
    var rt := AssembleToken(S, Header("refresh+jwt", keyId),
                            RefreshPayload(claims, issuer, iat, iat + REFRESH_TOKEN_LIFETIME),
                            refresh.commitments, RefreshShares(shares));
    if at.Err? then Err(at.error)
    else if rt.Err? then Err(rt.error)
    else Ok(Issued(at.value, rt.value, ACCESS_TOKEN_LIFETIME, claims.scope, claims.jkt))
  }

  /** What the gateway cannot choose during one token issue. */
  datatype Chances = Chances(accessRound: string, refreshRound: string, jti: string, iat: int,
                             accessDraws: nat -> Option<Nonces>, refreshDraws: nat -> Option<Nonces>,
                             clocks: nat -> Option<int>)

  /** handleSign */
  function RelaySign(S: Suite, peers: map<int, Peer>, ids: seq<int>, threshold: int, issuer: string, keyId: string,
                     grant: Grant, credential: string, dpopProof: string, ch: Chances): (map<int, Peer>, Result<Issued>)
    requires Order(S) > 0
  {
    match DecodeCredentialClaims(S, credential)
    case Err(e) => (peers, Err(e))
    case Ok(claims) =>
      if |ids| < threshold then (peers, Err(QuorumTooSmall(|ids|, threshold, [])))
      else
        var (peers1, settled1) := CommitAll(S, peers, ch.accessRound, ids, ch.accessDraws);
        match Collect(settled1, false, threshold)
        case Err(e) => (peers1, Err(e))
        case Ok(access) =>
          var (peers2, settled2) := CommitAll(S, peers1, ch.refreshRound, access.participants, ch.refreshDraws);
          match Collect(settled2, true, threshold)
          case Err(e) => (peers2, Err(e))
          case Ok(refresh) =>
            var req := TokenRequest(grant, credential, dpopProof, ch.iat, ch.jti, access, refresh);
            var (peers3, results) :=
              SignAll(S, peers2, ch.accessRound, ch.refreshRound, req, access.commitments, ch.clocks);
            match AllOk(results)
            case Err(e) => (peers3, Err(e))
            case Ok(shares) => (peers3, Synthesise(S, claims, issuer, keyId, ch.iat, ch.jti, access, refresh, shares))
  }

  // ---- The object --------------------------------------------------------------------

  /** new Map over the node list: a later node replaces an earlier one with its id. */
  function NodeMap(list: seq<IdentityNode>): map<int, IdentityNode>
  {
    if list == [] then map[] else NodeMap(Front(list))[Last(list).settings.nodeId := Last(list)]
  }

  /** The keys of that map in insertion order: an id keeps its first place. */
  function KeyOrder(list: seq<IdentityNode>): seq<int>
  {
    if list == [] then []
    else
      var ids := KeyOrder(Front(list));
      if Last(list).settings.nodeId in ids then ids else ids + [Last(list).settings.nodeId]
  }

  lemma {:induction false} MapOfNodes(list: seq<IdentityNode>)
    ensures Distinct(KeyOrder(list)) && forall id :: id in KeyOrder(list) <==> id in NodeMap(list)
    ensures forall id :: id in NodeMap(list) ==> NodeMap(list)[id] in list && NodeMap(list)[id].settings.nodeId == id
  {
    if list != [] {
      MapOfNodes(Front(list));
    }
  }

  /** Of several nodes with one id the last one counts. */
  lemma {:induction false} LastNodeCounts(list: seq<IdentityNode>, id: int) returns (k: nat)
    requires id in NodeMap(list)
    ensures k < |list| && NodeMap(list)[id] == list[k] && list[k].settings.nodeId == id
    ensures forall j :: k < j < |list| ==> list[j].settings.nodeId != id
  {
    if Last(list).settings.nodeId == id {
      k := |list| - 1;
    } else {
      k := LastNodeCounts(Front(list), id);
    }
  }

  /** The ids come in the order in which they first occur. */
  lemma {:induction false} FirstSeenFirst(list: seq<IdentityNode>, a: nat, b: nat) returns (k: nat)
    requires a < b < |KeyOrder(list)|
    ensures k < |list| && list[k].settings.nodeId == KeyOrder(list)[a]
    ensures forall j :: 0 <= j <= k ==> list[j].settings.nodeId != KeyOrder(list)[b]
  {
    var f := Front(list);
    MapOfNodes(f);
    MapOfNodes(list);
    if b < |KeyOrder(f)| {
      k := FirstSeenFirst(f, a, b);
    } else {
      k := PlaceOf(f, KeyOrder(f)[a]);
      forall j | 0 <= j <= k
        ensures list[j].settings.nodeId != KeyOrder(list)[b]
      {
        InKeyOrder(f, j);
      }
    }
  }

  lemma {:induction false} PlaceOf(list: seq<IdentityNode>, id: int) returns (k: nat)
    requires id in KeyOrder(list)
    ensures k < |list| && list[k].settings.nodeId == id
  {
    if Last(list).settings.nodeId == id {
      k := |list| - 1;
    } else {
      k := PlaceOf(Front(list), id);
    }
  }

  lemma {:induction false} InKeyOrder(list: seq<IdentityNode>, j: nat)
    requires j < |list|
    ensures list[j].settings.nodeId in KeyOrder(list)
  {
    if j < |list| - 1 {
      InKeyOrder(Front(list), j);
      assert Front(list)[j] == list[j];
    }
  }

  class PastaOAuthProxy {
    const suite: Suite
    const ids: seq<int>
    const nodes: map<int, IdentityNode>
    const threshold: int
    const issuer: string
    const keyId: string

    ghost predicate Valid()
      reads nodes.Values
    {
      && Order(suite) > 0
      && (forall id :: id in nodes ==> nodes[id].Valid() && nodes[id].suite == suite && nodes[id].settings.nodeId == id)
      && (forall id :: id in ids <==> id in nodes) && Distinct(ids)
    }

    ghost function Peers(): map<int, Peer>
      reads nodes.Values
    {
      map id | id in nodes :: Peer(nodes[id].settings, nodes[id].history)
    }

    /** A call that changed one node changed that node's entry alone. */
    twostate lemma OneChanged(id: int)
      requires id in nodes && old(Valid()) && Valid()
      requires forall j :: j in nodes && j != id ==> unchanged(nodes[j])
      ensures Peers() == old(Peers())[id := Peer(nodes[id].settings, nodes[id].history)]
    {
      assert forall j :: j in nodes && j != id ==> nodes[j].history == old(nodes[j].history);
    }

    constructor (S: Suite, list: seq<IdentityNode>, threshold: int, issuer: string, keyId: string)
      requires Order(S) > 0 && forall i :: 0 <= i < |list| ==> list[i].Valid() && list[i].suite == S
      ensures Valid() && this.suite == S && this.threshold == threshold
      ensures this.issuer == Base64Url.StripEnd(issuer, '/') && this.keyId == keyId
      ensures ids == KeyOrder(list) && nodes == NodeMap(list)
    {
      this.suite := S;
      this.ids := KeyOrder(list);
      this.nodes := NodeMap(list);
      this.threshold := threshold;
      this.issuer := Base64Url.StripEnd(issuer, '/');
      this.keyId := keyId;
      new;
      MapOfNodes(list);
    }

    method CollectCommitments(roundId: string, participantIds: seq<int>, explicit: bool, draws: nat -> Option<Nonces>)
      returns (r: Result<Round>)
      requires Valid()
      modifies nodes.Values
      ensures Valid()
      ensures (Peers(), r) == (CommitAll(suite, old(Peers()), roundId, participantIds, draws).0,
                               Collect(CommitAll(suite, old(Peers()), roundId, participantIds, draws).1, explicit,
                                       threshold))
    {
      hide Commit;
      var settled: seq<Outcome> := [];
      for i := 0 to |participantIds|
        invariant Valid()
        invariant (Peers(), settled) == CommitAll(suite, old(Peers()), roundId, participantIds[..i], draws)
      {
        PrefixStep(participantIds, i);
        var id := participantIds[i];
        if id !in nodes || draws(i).None? {
          settled := settled + [Failed(id)];
        } else {
          label before:
          var c := nodes[id].GenerateCommitment(roundId, draws(i).value);
          OneChanged@before(id);
          settled := settled + [Committed(c)];
        }
      }
      assert participantIds[..|participantIds|] == participantIds;
      r := Collect(settled, explicit, threshold);
    }

    method HandleSignOn(body: SignOnBody, roundId: string, sessionId: string, draws: nat -> Option<Nonces>,
                        clocks: nat -> Option<int>) returns (r: Result<Relayed>)
      requires Valid()
      modifies nodes.Values
      ensures Valid()
      ensures (Peers(), r) == RelaySignOn(suite, old(Peers()), ids, threshold, body, roundId, sessionId, draws, clocks)
    {
      hide SignOn, CommitAll, Collect;
      var requested := Requested(ids, body.participants);
      if |requested| < threshold {
        return Err(QuorumTooSmall(|requested|, threshold, []));
      }
      var collected := CollectCommitments(roundId, requested, body.participants.Some?, draws);
      if collected.Err? {
        return Err(collected.error);
      }
      var round := collected.value;
      var req := NodeRequest(body, sessionId, round);
      var results: seq<Result<SignOnResponse>> := [];
      ghost var start := Peers();
      for i := 0 to |round.commitments|
        invariant Valid()
        invariant (Peers(), results) == SignOnAll(suite, start, roundId, req, round.commitments[..i], clocks)
      {
        PrefixStep(round.commitments, i);
        var c := round.commitments[i];
        if c.nodeId !in nodes || clocks(i).None? {
          results := results + [Err(NodeUnreachable)];
        } else {
          label before:
          var answer := nodes[c.nodeId].HandleSignOn(roundId, req, c, clocks(i).value);
          OneChanged@before(c.nodeId);
          results := results + [answer];
        }
      }
      assert round.commitments[..|round.commitments|] == round.commitments;
      var responses := AllOk(results);
      if responses.Err? {
        return Err(responses.error);
      }
      return Ok(Relayed(sessionId, round.commitments, responses.value));
    }

    method HandleSign(grant: Grant, credential: string, dpopProof: string, ch: Chances) returns (r: Result<Issued>)
      requires Valid()
      modifies nodes.Values
      ensures Valid()
      ensures (Peers(), r)
              == RelaySign(suite, old(Peers()), ids, threshold, issuer, keyId, grant, credential, dpopProof, ch)
    {
      hide Sign, CommitAll, Collect, Synthesise, TokenRequest, DecodeCredentialClaims, FindCommitment;
      var claims := DecodeCredentialClaims(suite, credential);
      if claims.Err? {
        return Err(claims.error);
      }
      if |ids| < threshold {
        return Err(QuorumTooSmall(|ids|, threshold, []));
      }
      var accessRound := CollectCommitments(ch.accessRound, ids, false, ch.accessDraws);
      if accessRound.Err? {
        return Err(accessRound.error);
      }
      var access := accessRound.value;
      var refreshRound := CollectCommitments(ch.refreshRound, access.participants, true, ch.refreshDraws);
      if refreshRound.Err? {
        return Err(refreshRound.error);
      }
      var refresh := refreshRound.value;
      var req := TokenRequest(grant, credential, dpopProof, ch.iat, ch.jti, access, refresh);
      var results := AskAll(ch.accessRound, ch.refreshRound, req, access.commitments, ch.clocks);
      var shares := AllOk(results);
      if shares.Err? {
        return Err(shares.error);
      }
      r := Synthesise(suite, claims.value, issuer, keyId, ch.iat, ch.jti, access, refresh, shares.value);
    }

    /** The sign calls of one token issue. */
    method AskAll(accessRound: string, refreshRound: string, req: SignRequest, commitments: seq<Commitment>,
                  clocks: nat -> Option<int>) returns (results: seq<Result<Shares>>)
      requires Valid()
      modifies nodes.Values
      ensures Valid()
      ensures (Peers(), results) == SignAll(suite, old(Peers()), accessRound, refreshRound, req, commitments, clocks)
    {
      hide Sign, FindCommitment, ReadShares;
      results := [];
      for i := 0 to |commitments|
        invariant Valid()
        invariant (Peers(), results)
                  == SignAll(suite, old(Peers()), accessRound, refreshRound, req, commitments[..i], clocks)
      {
        PrefixStep(commitments, i);
        var c := commitments[i];
        var found := FindCommitment(req.refreshCommitments, c.nodeId);
        if found.None? {
          results := results + [Err(CommitmentMissing)];
        } else if c.nodeId !in nodes || clocks(i).None? {
          results := results + [Err(NodeUnreachable)];
        } else {
          label before:
          var answer := nodes[c.nodeId].HandleSign(accessRound, refreshRound, req, c, found.value, clocks(i).value);
          OneChanged@before(c.nodeId);
          results := results + [ReadShares(answer)];
        }
      }
      assert commitments[..|commitments|] == commitments;
    }
  }
}
