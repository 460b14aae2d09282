/** Whom the gateway asks: an explicit quorum exactly, and otherwise every node it knows. */
module Asking {
  import opened Arith
  import opened Seqs
  import opened Bytes
  import opened Suites
  import opened Frost
  import opened Node
  import opened Signing
  import opened Gateway
  import opened Quorums

  // ---- The commit calls --------------------------------------------------------------

  lemma OutcomesInOrder(S: Suite, peers: map<int, Peer>, roundId: string, ids: seq<int>, draws: nat -> Option<Nonces>)
    ensures var (peers', settled) := CommitAll(S, peers, roundId, ids, draws);
            && peers'.Keys == peers.Keys && AskedIn(settled) == ids
            && forall i :: 0 <= i < |ids| && ids[i] in peers && draws(i).Some? ==>
                 settled[i].Committed? && settled[i].c.nodeId == ids[i]
  {
    CommitAllSettled(S, peers, roundId, ids, draws);
    hide CommitAll, PublishedBy;
    forall i | 0 <= i < |ids|
      ensures AskedIn(CommitAll(S, peers, roundId, ids, draws).1)[i] == ids[i]
      ensures draws(i).Some? ==> PublishedBy(S, ids[i], draws(i).value).nodeId == ids[i]
    {
      if draws(i).Some? {
        PublishedId(S, ids[i], draws(i).value);
      }
    }
  }

  /** Who is in the round: nobody unasked, everybody asked whose call succeeded, and all of an explicit quorum. */
  lemma CollectedIds(S: Suite, peers: map<int, Peer>, roundId: string, ids: seq<int>, draws: nat -> Option<Nonces>,
                     explicit: bool, threshold: int)
    requires Collect(CommitAll(S, peers, roundId, ids, draws).1, explicit, threshold).Ok?
    ensures var asked := CommitmentIds(Collect(CommitAll(S, peers, roundId, ids, draws).1, explicit, threshold).value
                                       .commitments);
            && |asked| >= threshold && multiset(asked) <= multiset(ids)
            && (explicit ==> multiset(asked) == multiset(ids))
            && (forall i :: 0 <= i < |ids| && ids[i] in peers && draws(i).Some? ==> ids[i] in asked)
  {
    var settled := CommitAll(S, peers, roundId, ids, draws).1;
    var r := Collect(settled, explicit, threshold).value;
    OutcomesInOrder(S, peers, roundId, ids, draws);
    hide CommitAll, Collect;
    CollectExact(settled, explicit, threshold);
    CollectSmall(settled, explicit, threshold);
    if explicit {
      NobodyExcluded(settled, threshold);
    }
    forall i | 0 <= i < |ids| && ids[i] in peers && draws(i).Some?
      ensures ids[i] in CommitmentIds(r.commitments)
    {
      IsCollected(settled, r.commitments, i);
    }
  }

  lemma NobodyExcluded(settled: seq<Outcome>, threshold: int)
    requires Collect(settled, true, threshold).Ok?
    ensures Collect(settled, true, threshold).value.excluded == []
  {
    assert SortNumbers([]) == [];
  }

  lemma IsCollected(settled: seq<Outcome>, commitments: seq<Commitment>, i: nat)
    requires i < |settled| && settled[i].Committed? && multiset(commitments) == multiset(CommitmentsIn(settled))
    ensures settled[i].c.nodeId in CommitmentIds(commitments)
  {
    var c := settled[i].c;
    CommitmentsAreOutcomes(settled, c);
    assert c in multiset(commitments);
    var k :| 0 <= k < |commitments| && commitments[k] == c;
    assert CommitmentIds(commitments)[k] == c.nodeId;
  }

  lemma Unasked(asked: seq<int>, ids: seq<int>, id: int)
    requires multiset(asked) <= multiset(ids) && id !in ids
    ensures id !in asked
  {
    assert multiset(ids)[id] == 0;
    assert multiset(asked)[id] <= multiset(ids)[id];
  }

  // ---- Sign-on -----------------------------------------------------------------------

  /** The relay over the nodes that are asked, whoever they are. */
  lemma RelayOver(S: Suite, peers: map<int, Peer>, ids: seq<int>, threshold: int, body: SignOnBody, roundId: string,
                  sessionId: string, draws: nat -> Option<Nonces>, clocks: nat -> Option<int>, asked: seq<int>)
    requires Order(S) > 0 && asked == match body.participants case Some(p) => p case None => ids
    ensures var (peers', r) :=
              RelaySignOn(S, peers, ids, threshold, body, roundId, sessionId, draws, clocks);
            && peers'.Keys == peers.Keys
            && (forall id :: id in peers && id !in asked ==> peers'[id] == peers[id])
            && (r.Ok? ==>
                  var c := Collect(CommitAll(S, peers, roundId, asked, draws).1, body.participants.Some?, threshold);
                  c.Ok? && r.value.commitments == c.value.commitments
                  && |r.value.responses| == |c.value.commitments|)
  {
    var explicit := body.participants.Some?;
    var (peers1, settled) := CommitAll(S, peers, roundId, asked, draws);
    CommitAllSettled(S, peers, roundId, asked, draws);
    hide CommitAll, Collect, SignOnAll, AllOk, NodeRequest;
    forall id | id in peers && id !in asked
      ensures peers1[id] == peers[id]
    {
      CommitAllUntouched(S, peers, roundId, asked, draws, id);
    }
    if |asked| >= threshold && Collect(settled, explicit, threshold).Ok? {
      var round := Collect(settled, explicit, threshold).value;
      var req := NodeRequest(body, sessionId, round);
      CollectedIds(S, peers, roundId, asked, draws, explicit, threshold);
      SignOnAllFrame(S, peers1, roundId, req, round.commitments, clocks);
      var peers2 := SignOnAll(S, peers1, roundId, req, round.commitments, clocks).0;
      forall id | id in peers && id !in asked
        ensures peers2[id] == peers[id]
      {
        Unasked(CommitmentIds(round.commitments), asked, id);
      }
    }
  }

  /**
   * An explicit quorum is asked and nobody else: every other node keeps its state, and a relayed answer is
   * that of exactly these nodes.
   */
  lemma ExplicitQuorum(S: Suite, peers: map<int, Peer>, ids: seq<int>, threshold: int, body: SignOnBody,
                       roundId: string, sessionId: string, draws: nat -> Option<Nonces>, clocks: nat -> Option<int>,
                       p: seq<int>)
    requires Order(S) > 0 && body.participants == Some(p)
    ensures var (peers', r) := RelaySignOn(S, peers, ids, threshold, body, roundId, sessionId, draws, clocks);
            && peers'.Keys == peers.Keys
            && (forall id :: id in peers && id !in p ==> peers'[id] == peers[id])
            && (r.Ok? ==> multiset(CommitmentIds(r.value.commitments)) == multiset(p)
                          && |r.value.responses| == |r.value.commitments| == |p|)
  {
    RelayOver(S, peers, ids, threshold, body, roundId, sessionId, draws, clocks, p);
    hide RelaySignOn, CommitAll, Collect;
    var r := RelaySignOn(S, peers, ids, threshold, body, roundId, sessionId, draws, clocks).1;
    if r.Ok? {
      CollectedIds(S, peers, roundId, p, draws, true, threshold);
      assert |multiset(CommitmentIds(r.value.commitments))| == |multiset(p)|;
    }
  }

  /**
   * Without an explicit quorum every known node is asked and nobody else: a relayed answer is that of
   * enough nodes, with every node among them whose commit call succeeded.
   */
  lemma FreeQuorum(S: Suite, peers: map<int, Peer>, ids: seq<int>, threshold: int, body: SignOnBody, roundId: string,
                   sessionId: string, draws: nat -> Option<Nonces>, clocks: nat -> Option<int>)
    requires Order(S) > 0 && body.participants.None?
    ensures var (peers', r) := RelaySignOn(S, peers, ids, threshold, body, roundId, sessionId, draws, clocks);
            && peers'.Keys == peers.Keys
            && (forall id :: id in peers && id !in ids ==> peers'[id] == peers[id])
            && (r.Ok? ==>
                  var asked := CommitmentIds(r.value.commitments);
                  && |r.value.responses| == |asked| >= threshold && multiset(asked) <= multiset(ids)
                  && forall i :: 0 <= i < |ids| && ids[i] in peers && draws(i).Some? ==> ids[i] in asked)
  {
    RelayOver(S, peers, ids, threshold, body, roundId, sessionId, draws, clocks, ids);
    hide RelaySignOn, CommitAll, Collect;
    if RelaySignOn(S, peers, ids, threshold, body, roundId, sessionId, draws, clocks).1.Ok? {
      CollectedIds(S, peers, roundId, ids, draws, false, threshold);
    }
  }
}
