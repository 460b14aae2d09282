/**
 * What the gateway's two rounds keep: which nodes end up in the quorum, that both rounds of a token
 * have the same one, and in which state each node answers.
 */
module Quorums {
  import opened Arith
  import opened Seqs
  import opened Bytes
  import opened Json
  import opened Suites
  import opened Frost
  import opened Signing
  import opened Jwt
  import opened Tokens
  import opened Node
  import opened Gateway

  // ---- Sorting ids -------------------------------------------------------------------

  ghost predicate Ascending(s: seq<int>)
  {
    forall i, j :: 0 <= i < j < |s| ==> s[i] <= s[j]
  }

  lemma NumbersCompare()
    ensures TotalPreorder(NumberLeq)
  {
    forall x: int, y: int, z: int
      ensures Compares(NumberLeq, x, y, z)
    {
    }
  }

  lemma SortNumbersSorts(s: seq<int>)
    ensures Ascending(SortNumbers(s)) && multiset(SortNumbers(s)) == multiset(s)
  {
    NumbersCompare();
    SortBySorts(NumberLeq, s);
    var r := SortNumbers(s);
    hide SortNumbers, SortBy;
    forall i, j | 0 <= i < j < |r|
      ensures r[i] <= r[j]
    {
      assert NumberLeq(r[i], r[j]);
    }
  }

  lemma AscendingUnique(a: seq<int>, b: seq<int>)
    requires Ascending(a) && Ascending(b) && multiset(a) == multiset(b)
    ensures a == b
  {
    NumbersCompare();
    SortedUnique(NumberLeq, a, b);
  }

  // ---- Collecting --------------------------------------------------------------------

  /** Asking one more node adds its id to the commitments or to the failures. */
  lemma OneMoreAsked(settled: seq<Outcome>)
    requires settled != []
    ensures var f, id := Front(settled), Last(AskedIn(settled));
            && multiset(AskedIn(settled)) == multiset(AskedIn(f)) + multiset{id}
            && (Last(settled).Committed? ==>
                  multiset(CommitmentIds(CommitmentsIn(settled))) == multiset(CommitmentIds(CommitmentsIn(f)))
                  + multiset{id}
                  && FailuresIn(settled) == FailuresIn(f))
            && (Last(settled).Failed? ==>
                  multiset(FailuresIn(settled)) == multiset(FailuresIn(f)) + multiset{id}
                  && CommitmentsIn(settled) == CommitmentsIn(f))
  {
    var f := Front(settled);
    assert AskedIn(settled) == AskedIn(f) + [Last(AskedIn(settled))];
    match Last(settled) {
      case Committed(c) =>
        assert CommitmentIds(CommitmentsIn(settled)) == CommitmentIds(CommitmentsIn(f)) + [c.nodeId];
      case Failed(id) =>
    }
  }

  lemma {:induction false} AskedSplits(settled: seq<Outcome>)
    ensures multiset(CommitmentIds(CommitmentsIn(settled))) + multiset(FailuresIn(settled))
            == multiset(AskedIn(settled))
  {
    if settled != [] {
      hide CommitmentsIn, FailuresIn, AskedIn, CommitmentIds;
      AskedSplits(Front(settled));
      OneMoreAsked(settled);
    }
  }

  lemma {:induction false} CommitmentsAreOutcomes(settled: seq<Outcome>, c: Commitment)
    ensures c in CommitmentsIn(settled) <==> Committed(c) in settled
  {
    if settled != [] {
      CommitmentsAreOutcomes(Front(settled), c);
      assert settled == Front(settled) + [Last(settled)];
    }
  }

  /**
   * A round exists exactly when enough nodes committed and, for an explicit quorum, none failed. It
   * then holds all commitments in ascending order, and every asked node is in it or in the excluded list.
   */
  lemma CollectExact(settled: seq<Outcome>, explicit: bool, threshold: int)
    ensures Collect(settled, explicit, threshold).Ok?
            <==> |CommitmentsIn(settled)| >= threshold && (explicit ==> FailuresIn(settled) == [])
    ensures Collect(settled, explicit, threshold).Ok? ==>
              var r := Collect(settled, explicit, threshold).value;
              && multiset(r.commitments) == multiset(CommitmentsIn(settled))
              && r.participants == CommitmentIds(r.commitments)
              && Ascending(r.participants) && Ascending(r.excluded)
              && multiset(r.participants) + multiset(r.excluded) == multiset(AskedIn(settled))
    ensures Collect(settled, explicit, threshold).Err? && !(explicit && FailuresIn(settled) != []) ==>
              exists unreachable ::
                && Collect(settled, explicit, threshold)
                   == Err(QuorumTooSmall(|CommitmentsIn(settled)|, threshold, unreachable))
                && Ascending(unreachable) && multiset(unreachable) == multiset(FailuresIn(settled))
  {
    var cs := CommitmentsIn(settled);
    SortByIdSorts(cs);
    SortNumbersSorts(FailuresIn(settled));
    assert |SortById(cs)| == |multiset(cs)| == |cs|;
    AskedSplits(settled);
    IdsPermuted(cs, SortById(cs));
  }

  lemma IdsPermuted(a: seq<Commitment>, b: seq<Commitment>)
    requires multiset(a) == multiset(b)
    ensures multiset(CommitmentIds(a)) == multiset(CommitmentIds(b))
  {
    var f := (c: Commitment) => c.nodeId;
    assert CommitmentIds(a) == Map(f, a) && CommitmentIds(b) == Map(f, b);
    MapPermutation(f, a, b);
  }

  /** From distinct asked nodes comes a quorum of distinct participants, all of them asked. */
  lemma CollectDistinct(settled: seq<Outcome>, explicit: bool, threshold: int)
    requires Distinct(AskedIn(settled)) && Collect(settled, explicit, threshold).Ok?
    ensures Distinct(Collect(settled, explicit, threshold).value.participants)
    ensures forall id :: id in Collect(settled, explicit, threshold).value.participants ==> id in AskedIn(settled)
  {
    CollectExact(settled, explicit, threshold);
    var r := Collect(settled, explicit, threshold).value;
    var all := r.participants + r.excluded;
    DistinctPermutation(AskedIn(settled), all);
    forall i, j | 0 <= i < j < |r.participants|
      ensures r.participants[i] != r.participants[j]
    {
      assert all[i] != all[j];
    }
    forall id | id in r.participants
      ensures id in AskedIn(settled)
    {
      assert id in multiset(AskedIn(settled));
    }
  }

  lemma CollectSmall(settled: seq<Outcome>, explicit: bool, threshold: int)
    requires Collect(settled, explicit, threshold).Ok?
    ensures threshold <= |Collect(settled, explicit, threshold).value.commitments| <= |settled|
  {
    CollectExact(settled, explicit, threshold);
    var r := Collect(settled, explicit, threshold).value;
    assert |r.participants + r.excluded| == |multiset(r.participants + r.excluded)| == |multiset(AskedIn(settled))|
      == |settled|;
    assert |r.commitments| == |multiset(r.commitments)| == |CommitmentsIn(settled)|;
  }

  /** The second round of a token has exactly the participants of the first. */
  lemma SecondRoundSame(first: seq<Outcome>, second: seq<Outcome>, threshold: int)
    requires Collect(first, false, threshold).Ok?
    requires AskedIn(second) == Collect(first, false, threshold).value.participants
    requires Collect(second, true, threshold).Ok?
    ensures Collect(second, true, threshold).value.participants == Collect(first, false, threshold).value.participants
    ensures Collect(second, true, threshold).value.excluded == []
  {
    CollectExact(first, false, threshold);
    CollectExact(second, true, threshold);
    var a, b := Collect(first, false, threshold).value, Collect(second, true, threshold).value;
    assert SortNumbers([]) == [];
    assert multiset(b.excluded) == multiset{};
    AscendingUnique(a.participants, b.participants);
  }

  // ---- The commit calls --------------------------------------------------------------

  /** The node has this round open with these nonces. */
  ghost predicate OpenWith(peers: map<int, Peer>, id: int, roundId: string, nonces: Nonces)
  {
    id in peers && roundId in peers[id].st.active && peers[id].st.active[roundId].nonces == nonces
  }

  /** The two states of a node differ at most in one round's entry and in history. */
  ghost predicate SameButRound(p: Peer, p': Peer, roundId: string)
  {
    p'.cfg == p.cfg && p'.st.users == p.st.users && p'.st.active - {roundId} == p.st.active - {roundId}
  }

  function ExpectedOutcome(S: Suite, peers: map<int, Peer>, id: int, nonces: Option<Nonces>): Outcome
  {
    if id in peers && nonces.Some? then Committed(PublishedBy(S, id, nonces.value)) else Failed(id)
  }

  /** One commit call. */
  function AfterCommit(peers: map<int, Peer>, id: int, roundId: string, nonces: Option<Nonces>): map<int, Peer>
  {
    if id !in peers || nonces.None? then peers
    else peers[id := Peer(peers[id].cfg, Commit(peers[id].st, roundId, nonces.value))]
  }

  lemma CommitAllUnfold(S: Suite, peers: map<int, Peer>, roundId: string, ids: seq<int>, draws: nat -> Option<Nonces>)
    requires ids != []
    ensures var (peers1, settled1) := CommitAll(S, peers, roundId, Front(ids), draws);
            var (peers2, settled2) := CommitAll(S, peers, roundId, ids, draws);
            && peers2 == AfterCommit(peers1, Last(ids), roundId, draws(|ids| - 1))
            && settled2 == settled1 + [ExpectedOutcome(S, peers1, Last(ids), draws(|ids| - 1))]
  {
    hide PublishedBy, Commit;
  }

  lemma {:induction false} CommitAllSettled(S: Suite, peers: map<int, Peer>, roundId: string, ids: seq<int>,
                                            draws: nat -> Option<Nonces>)
    ensures var (peers', settled) := CommitAll(S, peers, roundId, ids, draws);
            && peers'.Keys == peers.Keys && |settled| == |ids|
            && (forall i :: 0 <= i < |ids| ==> settled[i] == ExpectedOutcome(S, peers, ids[i], draws(i)))
  {
    if ids != [] {
      CommitAllUnfold(S, peers, roundId, ids, draws);
      CommitAllSettled(S, peers, roundId, Front(ids), draws);
      hide CommitAll, PublishedBy, Commit;
    }
  }

  lemma {:induction false} CommitAllUntouched(S: Suite, peers: map<int, Peer>, roundId: string, ids: seq<int>,
                                              draws: nat -> Option<Nonces>, id: int)
    requires id in peers && id !in ids
    ensures var peers' := CommitAll(S, peers, roundId, ids, draws).0; id in peers' && peers'[id] == peers[id]
  {
    if ids != [] {
      CommitAllUnfold(S, peers, roundId, ids, draws);
      assert Last(ids) in ids;
      CommitAllUntouched(S, peers, roundId, Front(ids), draws, id);
      hide CommitAll, Commit;
    }
  }

  /** The state of a node after its own commit call, whatever other nodes were asked before or after. */
  lemma {:induction false} CommitAllStates(S: Suite, peers: map<int, Peer>, roundId: string, ids: seq<int>,
                                           draws: nat -> Option<Nonces>, i: nat)
    requires Distinct(ids) && i < |ids| && ids[i] in peers
    ensures var peers' := CommitAll(S, peers, roundId, ids, draws).0;
            ids[i] in peers' && peers'[ids[i]] == AfterCommit(peers, ids[i], roundId, draws(i))[ids[i]]
  {
    var f := Front(ids);
    CommitAllUnfold(S, peers, roundId, ids, draws);
    hide CommitAll, Commit;
    if i < |f| {
      CommitAllStates(S, peers, roundId, f, draws, i);
      assert f[i] == ids[i] != ids[|ids| - 1];
    } else {
      assert forall j :: 0 <= j < |f| ==> f[j] == ids[j] != ids[i];
      assert ids[i] !in f;
      CommitAllUntouched(S, peers, roundId, f, draws, ids[i]);
    }
  }

  /** One commit call at a node: its round is open with the drawn nonces, and little else has changed. */
  lemma CommitOpens(S: Suite, peers: map<int, Peer>, peers': map<int, Peer>, roundId: string, id: int,
                    nonces: Option<Nonces>)
    requires id in peers && id in peers' && peers'[id] == AfterCommit(peers, id, roundId, nonces)[id]
    ensures SameButRound(peers[id], peers'[id], roundId)
    ensures ExpectedOutcome(S, peers, id, nonces).Committed? ==> OpenWith(peers', id, roundId, nonces.value)
  {
  }

  lemma CommitAllOutcomes(S: Suite, peers: map<int, Peer>, roundId: string, ids: seq<int>, draws: nat -> Option<Nonces>)
    requires Distinct(ids)
    ensures var (peers', settled) := CommitAll(S, peers, roundId, ids, draws);
            && peers'.Keys == peers.Keys
            && |settled| == |ids| && AskedIn(settled) == ids
            && (forall i :: 0 <= i < |ids| ==> settled[i] == ExpectedOutcome(S, peers, ids[i], draws(i)))
            && (forall i :: 0 <= i < |ids| && settled[i].Committed? ==>
                  OpenWith(peers', ids[i], roundId, draws(i).value))
            && (forall id :: id in peers ==> SameButRound(peers[id], peers'[id], roundId))
            && (forall id :: id in peers && id !in ids ==> peers'[id] == peers[id])
  {
    var (peers', settled) := CommitAll(S, peers, roundId, ids, draws);
    CommitAllSettled(S, peers, roundId, ids, draws);
    hide CommitAll, SameButRound, OpenWith, AfterCommit, PublishedBy;
    forall i | 0 <= i < |ids|
      ensures AskedIn(settled)[i] == ids[i]
      ensures settled[i].Committed? ==> OpenWith(peers', ids[i], roundId, draws(i).value)
    {
      if draws(i).Some? {
        PublishedId(S, ids[i], draws(i).value);
      }
      if ids[i] in peers {
        CommitAllStates(S, peers, roundId, ids, draws, i);
        CommitOpens(S, peers, peers', roundId, ids[i], draws(i));
      }
    }
    forall id | id in peers
      ensures SameButRound(peers[id], peers'[id], roundId)
      ensures id !in ids ==> peers'[id] == peers[id]
    {
      if id in ids {
        var i :| 0 <= i < |ids| && ids[i] == id;
        CommitAllStates(S, peers, roundId, ids, draws, i);
        CommitOpens(S, peers, peers', roundId, id, draws(i));
      } else {
        CommitAllUntouched(S, peers, roundId, ids, draws, id);
        Unchanged(peers[id], roundId);
      }
    }
  }

  lemma Unchanged(p: Peer, roundId: string)
    ensures SameButRound(p, p, roundId)
  {
  }

  /** The outcome of asking one node. */
  function OutcomeOf(S: Suite, peers: map<int, Peer>, draw: int -> Option<Nonces>): int -> Outcome
  {
    (id: int) => ExpectedOutcome(S, peers, id, draw(id))
  }

  lemma CommitAllMap(S: Suite, peers: map<int, Peer>, roundId: string, ids: seq<int>, draws: nat -> Option<Nonces>,
                     draw: int -> Option<Nonces>)
    requires Distinct(ids) && forall i :: 0 <= i < |ids| ==> draws(i) == draw(ids[i])
    ensures CommitAll(S, peers, roundId, ids, draws).1 == Map(OutcomeOf(S, peers, draw), ids)
  {
    hide PublishedBy, CommitAll, ExpectedOutcome;
    CommitAllOutcomes(S, peers, roundId, ids, draws);
  }

  /**
   * The commit calls of a round may be made, and may end, in any order: nodes, outcomes and the round
   * collected from them are the same.
   */
  lemma CommitOrderIrrelevant(S: Suite, peers: map<int, Peer>, roundId: string, ids: seq<int>,
                              draws: nat -> Option<Nonces>, ids': seq<int>, draws': nat -> Option<Nonces>,
                              draw: int -> Option<Nonces>, explicit: bool, threshold: int)
    requires Distinct(ids) && multiset(ids) == multiset(ids')
    requires forall i :: 0 <= i < |ids| ==> draws(i) == draw(ids[i])
    requires forall i :: 0 <= i < |ids'| ==> draws'(i) == draw(ids'[i])
    ensures CommitAll(S, peers, roundId, ids, draws).0 == CommitAll(S, peers, roundId, ids', draws').0
    ensures Collect(CommitAll(S, peers, roundId, ids, draws).1, explicit, threshold)
            == Collect(CommitAll(S, peers, roundId, ids', draws').1, explicit, threshold)
  {
    DistinctPermutation(ids, ids');
    CommitAllMap(S, peers, roundId, ids, draws, draw);
    CommitAllMap(S, peers, roundId, ids', draws', draw);
    MapPermutation(OutcomeOf(S, peers, draw), ids, ids');
    CommitAllOutcomes(S, peers, roundId, ids, draws);
    hide CommitAll, OutcomeOf, Collect, PublishedBy;
    SameCollected(CommitAll(S, peers, roundId, ids, draws).1, CommitAll(S, peers, roundId, ids', draws').1, explicit,
                  threshold);
    SameStates(S, peers, roundId, ids, draws, ids', draws', draw);
  }

  lemma SameStates(S: Suite, peers: map<int, Peer>, roundId: string, ids: seq<int>, draws: nat -> Option<Nonces>,
                   ids': seq<int>, draws': nat -> Option<Nonces>, draw: int -> Option<Nonces>)
    requires Distinct(ids) && Distinct(ids') && multiset(ids) == multiset(ids')
    requires forall i :: 0 <= i < |ids| ==> draws(i) == draw(ids[i])
    requires forall i :: 0 <= i < |ids'| ==> draws'(i) == draw(ids'[i])
    ensures CommitAll(S, peers, roundId, ids, draws).0 == CommitAll(S, peers, roundId, ids', draws').0
  {
    hide CommitAll, AfterCommit;
    var a, b := CommitAll(S, peers, roundId, ids, draws).0, CommitAll(S, peers, roundId, ids', draws').0;
    KeysKept(S, peers, roundId, ids, draws);
    KeysKept(S, peers, roundId, ids', draws');
    forall id | id in peers
      ensures a[id] == b[id]
    {
      StateOf(S, peers, roundId, ids, draws, draw, id);
      StateOf(S, peers, roundId, ids', draws', draw, id);
      SameMembers(ids, ids', id);
    }
  }

  lemma KeysKept(S: Suite, peers: map<int, Peer>, roundId: string, ids: seq<int>, draws: nat -> Option<Nonces>)
    requires Distinct(ids)
    ensures CommitAll(S, peers, roundId, ids, draws).0.Keys == peers.Keys
  {
    hide CommitAll;
    CommitAllOutcomes(S, peers, roundId, ids, draws);
  }

  lemma SameMembers<A>(s: seq<A>, t: seq<A>, x: A)
    requires multiset(s) == multiset(t)
    ensures x in s <==> x in t
  {
    if x in s {
      InPermutation(s, t, x);
    }
    if x in t {
      InPermutation(t, s, x);
    }
  }

  lemma StateOf(S: Suite, peers: map<int, Peer>, roundId: string, ids: seq<int>, draws: nat -> Option<Nonces>,
                draw: int -> Option<Nonces>, id: int)
    requires Distinct(ids) && id in peers && forall i :: 0 <= i < |ids| ==> draws(i) == draw(ids[i])
    ensures var peers' := CommitAll(S, peers, roundId, ids, draws).0;
            id in peers' && peers'[id] == if id in ids then AfterCommit(peers, id, roundId, draw(id))[id] else peers[id]
  {
    hide CommitAll, AfterCommit;
    CommitAllOutcomes(S, peers, roundId, ids, draws);
    if id in ids {
      var i :| 0 <= i < |ids| && ids[i] == id;
      CommitAllStates(S, peers, roundId, ids, draws, i);
    }
  }

  lemma SameCollected(a: seq<Outcome>, b: seq<Outcome>, explicit: bool, threshold: int)
    requires Distinct(AskedIn(a)) && multiset(a) == multiset(b)
    ensures Collect(a, explicit, threshold) == Collect(b, explicit, threshold)
  {
    OutcomesPermuted(a, b);
    var c, d := CommitmentsIn(a), CommitmentsIn(b);
    SortByIdSorts(c);
    SortByIdSorts(d);
    SortNumbersSorts(FailuresIn(a));
    SortNumbersSorts(FailuresIn(b));
    DistinctIdsPermuted(c, SortById(c));
    hide CommitmentsIn, FailuresIn, SortById, SortNumbers, SortedById, Ascending;
    SortedByIdUnique(SortById(c), SortById(d));
    AscendingUnique(SortNumbers(FailuresIn(a)), SortNumbers(FailuresIn(b)));
    if FailuresIn(a) == [] || FailuresIn(b) == [] {
      assert |multiset(FailuresIn(a))| == |multiset(FailuresIn(b))|;
    }
  }

  lemma OutcomesPermuted(a: seq<Outcome>, b: seq<Outcome>)
    requires Distinct(AskedIn(a)) && multiset(a) == multiset(b)
    ensures multiset(CommitmentsIn(a)) == multiset(CommitmentsIn(b))
            && multiset(FailuresIn(a)) == multiset(FailuresIn(b))
    ensures Distinct(CommitmentIds(CommitmentsIn(a)))
  {
    AskedPermuted(a, b);
    DistinctPermutation(AskedIn(a), AskedIn(b));
    AskedSplits(a);
    AskedSplits(b);
    CommittedDistinct(a);
    CommittedDistinct(b);
    var c, d := CommitmentsIn(a), CommitmentsIn(b);
    hide CommitmentsIn, FailuresIn;
    forall x
      ensures x in c <==> x in d
    {
      CommitmentsAreOutcomes(a, x);
      CommitmentsAreOutcomes(b, x);
      if Committed(x) in a {
        InPermutation(a, b, Committed(x));
      }
      if Committed(x) in b {
        InPermutation(b, a, Committed(x));
      }
    }
    DistinctSameElements(c, d);
    IdsPermuted(c, d);
    Remainder(multiset(CommitmentIds(c)), multiset(FailuresIn(a)), multiset(FailuresIn(b)));
  }

  lemma Remainder(a: multiset<int>, b: multiset<int>, c: multiset<int>)
    requires a + b == a + c
    ensures b == c
  {
    assert b == (a + b) - a;
    assert c == (a + c) - a;
  }

  lemma AskedPermuted(a: seq<Outcome>, b: seq<Outcome>)
    requires multiset(a) == multiset(b)
    ensures multiset(AskedIn(a)) == multiset(AskedIn(b))
  {
    var f := (o: Outcome) => match o case Committed(c) => c.nodeId case Failed(id) => id;
    assert AskedIn(a) == Map(f, a) && AskedIn(b) == Map(f, b);
    MapPermutation(f, a, b);
  }

  lemma CommittedDistinct(a: seq<Outcome>)
    requires Distinct(AskedIn(a))
    ensures Distinct(CommitmentIds(CommitmentsIn(a))) && Distinct(CommitmentsIn(a))
  {
    AskedSplits(a);
    var ids := CommitmentIds(CommitmentsIn(a));
    var all := ids + FailuresIn(a);
    DistinctPermutation(AskedIn(a), all);
    forall i, j | 0 <= i < j < |ids|
      ensures ids[i] != ids[j]
    {
      assert all[i] != all[j];
    }
    forall i, j | 0 <= i < j < |CommitmentsIn(a)|
      ensures CommitmentsIn(a)[i] != CommitmentsIn(a)[j]
    {
      assert ids[i] != ids[j];
    }
  }

  /** Every commitment of the round is that of a node which has the round open with its nonces. */
  ghost predicate OpenFor(S: Suite, peers: map<int, Peer>, roundId: string, commitments: seq<Commitment>)
  {
    forall k :: 0 <= k < |commitments| ==> OpenCommitment(S, peers, roundId, commitments[k])
  }

  ghost predicate OpenCommitment(S: Suite, peers: map<int, Peer>, roundId: string, c: Commitment)
  {
    c.nodeId in peers && roundId in peers[c.nodeId].st.active
    && c == PublishedBy(S, c.nodeId, peers[c.nodeId].st.active[roundId].nonces)
  }

  /** After the commit calls, every collected commitment belongs to an open round. */
  lemma CollectedOpen(S: Suite, peers: map<int, Peer>, roundId: string, ids: seq<int>, draws: nat -> Option<Nonces>,
                      explicit: bool, threshold: int)
    requires Distinct(ids)
    requires Collect(CommitAll(S, peers, roundId, ids, draws).1, explicit, threshold).Ok?
    ensures var (peers', settled) := CommitAll(S, peers, roundId, ids, draws);
            var round := Collect(settled, explicit, threshold).value;
            && OpenFor(S, peers', roundId, round.commitments)
            && Distinct(round.participants) && round.participants == CommitmentIds(round.commitments)
            && |round.commitments| >= threshold
  {
    hide PublishedBy, CommitAll, Collect;
    var (peers', settled) := CommitAll(S, peers, roundId, ids, draws);
    CommitAllOutcomes(S, peers, roundId, ids, draws);
    CollectExact(settled, explicit, threshold);
    CollectDistinct(settled, explicit, threshold);
    var round := Collect(settled, explicit, threshold).value;
    assert |round.commitments| == |multiset(round.commitments)| == |CommitmentsIn(settled)|;
    forall k | 0 <= k < |round.commitments|
      ensures OpenCommitment(S, peers', roundId, round.commitments[k])
    {
      var c := round.commitments[k];
      assert c in multiset(round.commitments);
      CommitmentsAreOutcomes(settled, c);
      var i :| 0 <= i < |settled| && settled[i] == Committed(c);
      assert OpenWith(peers', ids[i], roundId, draws(i).value);
      PublishedId(S, ids[i], draws(i).value);
    }
  }

  lemma PublishedId(S: Suite, id: int, nonces: Nonces)
    ensures PublishedBy(S, id, nonces).nodeId == id
  {
  }

  // ---- The answers -------------------------------------------------------------------

  function SignOnCall(S: Suite, peers: map<int, Peer>, roundId: string, req: SignOnRequest, c: Commitment,
                      clock: Option<int>)
    : Result<SignOnResponse>
    requires Order(S) > 0
  {
    if c.nodeId !in peers || clock.None? then Err(NodeUnreachable)
    else SignOn(S, peers[c.nodeId].cfg, peers[c.nodeId].st, roundId, req, c, clock.value).1
  }

  lemma LastId(commitments: seq<Commitment>)
    requires commitments != []
    ensures forall id :: id in CommitmentIds(commitments)
                         <==> id in CommitmentIds(Front(commitments)) || id == Last(commitments).nodeId
  {
    var ids := CommitmentIds(commitments);
    assert CommitmentIds(Front(commitments)) == Front(ids) && Last(commitments).nodeId == Last(ids);
    assert ids == Front(ids) + [Last(ids)];
  }

  lemma LastIdNew(commitments: seq<Commitment>)
    requires commitments != [] && Distinct(CommitmentIds(commitments))
    ensures Distinct(CommitmentIds(Front(commitments)))
            && Last(commitments).nodeId !in CommitmentIds(Front(commitments))
  {
    var ids := CommitmentIds(commitments);
    assert CommitmentIds(Front(commitments)) == Front(ids) && Last(commitments).nodeId == Last(ids);
    assert ids == Front(ids) + [Last(ids)];
    forall k | 0 <= k < |ids| - 1
      ensures commitments[k].nodeId != Last(commitments).nodeId
    {
      assert ids[k] != ids[|ids| - 1];
    }
  }

  /** Distinct participants answer each from the state it had when the round of calls began. */
  lemma SignOnAllAnswers(S: Suite, peers: map<int, Peer>, roundId: string, req: SignOnRequest,
                                            commitments: seq<Commitment>, clocks: nat -> Option<int>)
    requires Order(S) > 0 && Distinct(CommitmentIds(commitments))
    ensures var (peers', results) := SignOnAll(S, peers, roundId, req, commitments, clocks);
            && peers'.Keys == peers.Keys
            && (forall id :: id in peers && id !in CommitmentIds(commitments) ==> peers'[id] == peers[id])
            && |results| == |commitments|
            && forall k :: 0 <= k < |commitments| ==>
                 results[k] == SignOnCall(S, peers, roundId, req, commitments[k], clocks(k))
  {
    hide *;
    SignOnAllFrame(S, peers, roundId, req, commitments, clocks);
    forall k | 0 <= k < |commitments|
      ensures SignOnAll(S, peers, roundId, req, commitments, clocks).1[k]
              == SignOnCall(S, peers, roundId, req, commitments[k], clocks(k))
    {
      SignOnCallAt(S, peers, roundId, req, commitments, clocks, k);
    }
  }

  lemma {:induction false} SignOnAllFrame(S: Suite, peers: map<int, Peer>, roundId: string, req: SignOnRequest,
                                          commitments: seq<Commitment>, clocks: nat -> Option<int>)
    requires Order(S) > 0
    ensures var (peers', results) := SignOnAll(S, peers, roundId, req, commitments, clocks);
            && peers'.Keys == peers.Keys && |results| == |commitments|
            && forall id :: id in peers && id !in CommitmentIds(commitments) ==> peers'[id] == peers[id]
  {
    if commitments != [] {
      SignOnAllUnfold(S, peers, roundId, req, commitments, clocks);
      hide *;
      SignOnAllFrame(S, peers, roundId, req, Front(commitments), clocks);
      LastId(commitments);
    }
  }

  lemma {:induction false} SignOnCallAt(S: Suite, peers: map<int, Peer>, roundId: string, req: SignOnRequest,
                                        commitments: seq<Commitment>, clocks: nat -> Option<int>, k: nat)
    requires Order(S) > 0 && Distinct(CommitmentIds(commitments)) && k < |commitments|
    ensures var results := SignOnAll(S, peers, roundId, req, commitments, clocks).1;
            |results| == |commitments| && results[k] == SignOnCall(S, peers, roundId, req, commitments[k], clocks(k))
  {
    hide SignOnCall, SignOnAll, CommitmentIds, Distinct;
    var f := Front(commitments);
    SignOnAllUnfold(S, peers, roundId, req, commitments, clocks);
    SignOnAllFrame(S, peers, roundId, req, f, clocks);
    LastIdNew(commitments);
    if k < |f| {
      SignOnCallAt(S, peers, roundId, req, f, clocks, k);
    } else {
      SameSignOnCall(S, peers, SignOnAll(S, peers, roundId, req, f, clocks).0, roundId, req, commitments[k], clocks(k));
    }
  }

  /** The last call is made in the state that the calls before it left, and changes its own node only. */
  lemma SignOnAllUnfold(S: Suite, peers: map<int, Peer>, roundId: string, req: SignOnRequest,
                        commitments: seq<Commitment>, clocks: nat -> Option<int>)
    requires Order(S) > 0 && commitments != []
    ensures var (before, results) := SignOnAll(S, peers, roundId, req, Front(commitments), clocks);
            var (after, results') := SignOnAll(S, peers, roundId, req, commitments, clocks);
            var c := Last(commitments);
            && results' == results + [SignOnCall(S, before, roundId, req, c, clocks(|commitments| - 1))]
            && after.Keys == before.Keys
            && forall id :: id in before && id != c.nodeId ==> after[id] == before[id]
  {
    hide SignOn;
  }

  /** A call sees its own node only. */
  lemma SameSignOnCall(S: Suite, peers: map<int, Peer>, peers': map<int, Peer>, roundId: string, req: SignOnRequest,
                       c: Commitment, clock: Option<int>)
    requires Order(S) > 0 && (c.nodeId in peers <==> c.nodeId in peers')
    requires c.nodeId in peers ==> peers[c.nodeId] == peers'[c.nodeId]
    ensures SignOnCall(S, peers, roundId, req, c, clock) == SignOnCall(S, peers', roundId, req, c, clock)
  {
    hide SignOn;
  }

  function SignCall(S: Suite, peers: map<int, Peer>, ar: string, rr: string, req: SignRequest, c: Commitment,
                    clock: Option<int>): Result<Shares>
    requires Order(S) > 0
  {
    match FindCommitment(req.refreshCommitments, c.nodeId)
    case None => Err(CommitmentMissing)
    case Some(rc) =>
      if c.nodeId !in peers || clock.None? then Err(NodeUnreachable)
      else ReadShares(Sign(S, peers[c.nodeId].cfg, peers[c.nodeId].st, ar, rr, req, c, rc, clock.value).1)
  }

  lemma SignAllAnswers(S: Suite, peers: map<int, Peer>, ar: string, rr: string, req: SignRequest,
                                          commitments: seq<Commitment>, clocks: nat -> Option<int>)
    requires Order(S) > 0 && Distinct(CommitmentIds(commitments))
    ensures var (peers', results) := SignAll(S, peers, ar, rr, req, commitments, clocks);
            && peers'.Keys == peers.Keys
            && (forall id :: id in peers && id !in CommitmentIds(commitments) ==> peers'[id] == peers[id])
            && |results| == |commitments|
            && forall k :: 0 <= k < |commitments| ==>
                 results[k] == SignCall(S, peers, ar, rr, req, commitments[k], clocks(k))
  {
    hide *;
    SignAllFrame(S, peers, ar, rr, req, commitments, clocks);
    forall k | 0 <= k < |commitments|
      ensures SignAll(S, peers, ar, rr, req, commitments, clocks).1[k]
              == SignCall(S, peers, ar, rr, req, commitments[k], clocks(k))
    {
      SignCallAt(S, peers, ar, rr, req, commitments, clocks, k);
    }
  }

  lemma {:induction false} SignAllFrame(S: Suite, peers: map<int, Peer>, ar: string, rr: string, req: SignRequest,
                                        commitments: seq<Commitment>, clocks: nat -> Option<int>)
    requires Order(S) > 0
    ensures var (peers', results) := SignAll(S, peers, ar, rr, req, commitments, clocks);
            && peers'.Keys == peers.Keys && |results| == |commitments|
            && forall id :: id in peers && id !in CommitmentIds(commitments) ==> peers'[id] == peers[id]
  {
    if commitments != [] {
      SignAllUnfold(S, peers, ar, rr, req, commitments, clocks);
      hide *;
      SignAllFrame(S, peers, ar, rr, req, Front(commitments), clocks);
      LastId(commitments);
    }
  }

  lemma {:induction false} SignCallAt(S: Suite, peers: map<int, Peer>, ar: string, rr: string, req: SignRequest,
                                      commitments: seq<Commitment>, clocks: nat -> Option<int>, k: nat)
    requires Order(S) > 0 && Distinct(CommitmentIds(commitments)) && k < |commitments|
    ensures var results := SignAll(S, peers, ar, rr, req, commitments, clocks).1;
            |results| == |commitments| && results[k] == SignCall(S, peers, ar, rr, req, commitments[k], clocks(k))
  {
    hide SignCall, SignAll, CommitmentIds, Distinct;
    var f := Front(commitments);
    SignAllUnfold(S, peers, ar, rr, req, commitments, clocks);
    SignAllFrame(S, peers, ar, rr, req, f, clocks);
    LastIdNew(commitments);
    if k < |f| {
      SignCallAt(S, peers, ar, rr, req, f, clocks, k);
    } else {
      SameSignCall(S, peers, SignAll(S, peers, ar, rr, req, f, clocks).0, ar, rr, req, commitments[k], clocks(k));
    }
  }

  lemma SignAllUnfold(S: Suite, peers: map<int, Peer>, ar: string, rr: string, req: SignRequest,
                      commitments: seq<Commitment>, clocks: nat -> Option<int>)
    requires Order(S) > 0 && commitments != []
    ensures var (before, results) := SignAll(S, peers, ar, rr, req, Front(commitments), clocks);
            var (after, results') := SignAll(S, peers, ar, rr, req, commitments, clocks);
            var c := Last(commitments);
            && results' == results + [SignCall(S, before, ar, rr, req, c, clocks(|commitments| - 1))]
            && after.Keys == before.Keys
            && forall id :: id in before && id != c.nodeId ==> after[id] == before[id]
  {
    hide Sign, ReadShares, FindCommitment;
  }

  lemma SameSignCall(S: Suite, peers: map<int, Peer>, peers': map<int, Peer>, ar: string, rr: string, req: SignRequest,
                     c: Commitment, clock: Option<int>)
    requires Order(S) > 0 && (c.nodeId in peers <==> c.nodeId in peers')
    requires c.nodeId in peers ==> peers[c.nodeId] == peers'[c.nodeId]
    ensures SignCall(S, peers, ar, rr, req, c, clock) == SignCall(S, peers', ar, rr, req, c, clock)
  {
    hide Sign, ReadShares, FindCommitment;
  }

  lemma {:induction false} FindCommitmentOf(commitments: seq<Commitment>, k: nat)
    requires k < |commitments| && Distinct(CommitmentIds(commitments))
    ensures FindCommitment(commitments, commitments[k].nodeId) == Some(commitments[k])
  {
    var ids := CommitmentIds(commitments);
    if k > 0 {
      assert ids[0] != ids[k];
      assert CommitmentIds(commitments[1..]) == ids[1..];
      FindCommitmentOf(commitments[1..], k - 1);
    }
  }

  /** A joint answer exists exactly when every call succeeded, and then consists of their values. */
  lemma AllOkPointwise<T>(results: seq<Result<T>>, good: seq<bool>, values: seq<T>)
    requires |results| == |good| == |values|
    requires forall k :: 0 <= k < |results| ==> (results[k].Ok? <==> good[k])
    requires forall k :: 0 <= k < |results| && good[k] ==> results[k] == Ok(values[k])
    ensures AllOk(results).Ok? <==> forall k :: 0 <= k < |good| ==> good[k]
    ensures AllOk(results).Ok? ==> AllOk(results) == Ok(values)
  {
    if AllOk(results).Ok? {
      assert AllOk(results).value == values;
    }
  }

  // ---- The credential ----------------------------------------------------------------

  /** Whatever credential a node accepts, the gateway reads the same identity from it. */
  lemma GatewayReadsSame(S: Suite, cfg: Settings, credential: string, typ: string, now: int)
    requires Order(S) > 0 && VerifyCredential(S, cfg, credential, typ, now).Ok?
    ensures DecodeCredentialClaims(S, credential) == Ok(VerifyCredential(S, cfg, credential, typ, now).value.id)
  {
    hide Verifies, Expired, SplitDots;
  }
}
