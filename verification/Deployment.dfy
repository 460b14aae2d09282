/** Dealt nodes with enrolled users, and the signers behind the commitments of a round. */
module Deployment {
  import opened Arith
  import opened Seqs
  import opened Bytes
  import opened Interpolation
  import opened Suites
  import opened Frost
  import opened Signing
  import opened Tokens
  import opened Node
  import opened Gateway
  import opened Quorums
  import opened Federation
  import Shamir
  import Toprf
  import Utf8

  /** A registered user: the password, and the polynomial its PRF key was shared with. */
  datatype Account = Account(username: string, sub: string, password: string, toprf: seq<int>)

  /** The nodes behind the gateway hold shares of one key and agree on issuer and key id. */
  ghost predicate Deployed(S: Suite, peers: map<int, Peer>, cs: seq<int>, issuer: string, keyId: string)
    requires Order(S) > 0 && cs != []
  {
    forall id :: id in peers ==> DeployedNode(S, peers[id].cfg, id, cs, issuer, keyId)
  }

  ghost predicate DeployedNode(S: Suite, cfg: Settings, id: int, cs: seq<int>, issuer: string, keyId: string)
    requires Order(S) > 0 && cs != []
  {
    cfg.nodeId == id && cfg.issuer == issuer && cfg.keyId == keyId && DealtTo(S, cfg, cs)
  }

  /** A record that node id keeps for an account, with whatever share of a PRF key. */
  ghost predicate KeptFor(S: Suite, u: UserRecord, id: int, a: Account)
    requires a.toprf != []
  {
    && u.sub == a.sub
    && u.serverKey == Toprf.DeriveServerKey(S, Toprf.Prf(S, Utf8.Encode(a.password), a.toprf[0]), id)
  }

  ghost predicate KeptAt(S: Suite, st: State, id: int, a: Account)
    requires a.toprf != []
  {
    a.username in st.users && KeptFor(S, st.users[a.username], id, a)
  }

  /** Every node knows the account and has its key, which is all that a node checks. */
  ghost predicate Kept(S: Suite, peers: map<int, Peer>, a: Account)
    requires a.toprf != []
  {
    forall id :: id in peers ==> KeptAt(S, peers[id].st, id, a)
  }

  /** The record that node id keeps for an account whose PRF key was shared by node id. */
  ghost predicate RecordOf(S: Suite, u: UserRecord, id: int, a: Account)
    requires Order(S) > 0 && a.toprf != []
  {
    KeptFor(S, u, id, a) && u.toprfKeyShare.value % Order(S) == Eval(a.toprf, id) % Order(S)
  }

  ghost predicate Enrolled(S: Suite, peers: map<int, Peer>, a: Account)
    requires Order(S) > 0 && a.toprf != []
  {
    forall id :: id in peers ==> EnrolledAt(S, peers[id].st, id, a)
  }

  ghost predicate EnrolledAt(S: Suite, st: State, id: int, a: Account)
    requires Order(S) > 0 && a.toprf != []
  {
    a.username in st.users && RecordOf(S, st.users[a.username], id, a)
  }

  lemma EnrolledIsKept(S: Suite, peers: map<int, Peer>, a: Account)
    requires Order(S) > 0 && a.toprf != [] && Enrolled(S, peers, a)
    ensures Kept(S, peers, a)
  {
    hide KeptFor;
    forall id | id in peers
      ensures KeptAt(S, peers[id].st, id, a)
    {
      assert EnrolledAt(S, peers[id].st, id, a);
    }
  }

  /** Who made the commitments of a round. */
  function SignersOf(peers: map<int, Peer>, roundId: string, commitments: seq<Commitment>): (q: seq<Signer>)
    requires forall k :: 0 <= k < |commitments| ==> HasRound(peers, roundId, commitments[k].nodeId)
    ensures |q| == |commitments|
    ensures forall k :: 0 <= k < |q| ==> q[k] == SignerOf(peers, roundId, commitments[k].nodeId)
  {
    seq(|commitments|, k requires 0 <= k < |commitments| => SignerOf(peers, roundId, commitments[k].nodeId))
  }

  predicate HasRound(peers: map<int, Peer>, roundId: string, id: int)
  {
    id in peers && roundId in peers[id].st.active
  }

  function SignerOf(peers: map<int, Peer>, roundId: string, id: int): Signer
    requires HasRound(peers, roundId, id)
  {
    Signer(id, peers[id].st.active[roundId].nonces, peers[id].cfg.secretKeyShare)
  }

  lemma OpenHasRounds(S: Suite, peers: map<int, Peer>, roundId: string, commitments: seq<Commitment>)
    requires OpenFor(S, peers, roundId, commitments)
    ensures forall k :: 0 <= k < |commitments| ==> HasRound(peers, roundId, commitments[k].nodeId)
  {
    forall k | 0 <= k < |commitments|
      ensures HasRound(peers, roundId, commitments[k].nodeId)
    {
      assert OpenCommitment(S, peers, roundId, commitments[k]);
    }
  }

  /** The open round of a large enough set of dealt nodes is a quorum that published those commitments. */
  lemma SignersAreQuorum(S: Suite, peers: map<int, Peer>, cs: seq<int>, issuer: string, keyId: string, roundId: string,
                         commitments: seq<Commitment>)
    requires Order(S) > 0 && cs != [] && Deployed(S, peers, cs, issuer, keyId)
    requires OpenFor(S, peers, roundId, commitments)
    requires Distinct(CommitmentIds(commitments)) && |commitments| >= |cs|
    ensures forall k :: 0 <= k < |commitments| ==> HasRound(peers, roundId, commitments[k].nodeId)
    ensures var q := SignersOf(peers, roundId, commitments);
            Quorum(S, q, cs) && PublishedAll(S, q) == commitments && SignerIds(q) == CommitmentIds(commitments)
  {
    hide Eval;
    OpenHasRounds(S, peers, roundId, commitments);
    var q := SignersOf(peers, roundId, commitments);
    assert SignerIds(q) == CommitmentIds(commitments);
    forall k | 0 <= k < |q|
      ensures 0 < q[k].id < Order(S) && q[k].share % Order(S) == Eval(cs, q[k].id) % Order(S)
      ensures Published(S, q[k]) == commitments[k]
    {
      assert OpenCommitment(S, peers, roundId, commitments[k]);
      assert DeployedNode(S, peers[commitments[k].nodeId].cfg, commitments[k].nodeId, cs, issuer, keyId);
    }
    assert PublishedAll(S, q) == commitments;
    assert ValidIds(SignerIds(q), Order(S));
  }
}
