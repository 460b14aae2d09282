/**
 * Several nodes at once. Calls of any number of sign-on and token rounds arrive at the nodes in any
 * order; every round whose participants all answered aggregates to a valid signature on its message.
 */
module Federation {
  import opened Arith
  import opened Seqs
  import opened Bytes
  import opened Interpolation
  import opened Suites
  import opened Frost
  import opened Signing
  import opened Tokens
  import opened Node
  import opened Rounds
  import Hex
  import Dpop
  import Toprf

  datatype Event = Event(node: nat, op: Op)

  /** The states of the nodes, and all signature shares in the order they were computed. */
  datatype System = System(nodes: seq<State>, log: seq<Use>)

  function Start(n: nat): System
  {
    System(seq(n, i => INITIAL), [])
  }

  lemma StepExtends(S: Suite, cfg: Settings, st: State, op: Op)
    requires Order(S) > 0
    ensures st.uses <= Step(S, cfg, st, op).uses
  {
    hide SignatureShare, Message, SealShare, Toprf.Evaluate, VerifyPresented, Dpop.VerifyProof, Hex.NodeScalarToHex;
  }

  function Advance(S: Suite, cfgs: seq<Settings>, sys: System, e: Event): (r: System)
    requires Order(S) > 0 && |sys.nodes| == |cfgs|
    ensures |r.nodes| == |cfgs|
  {
    if e.node >= |cfgs| then sys
    else
      var st := sys.nodes[e.node];
      var st' := Step(S, cfgs[e.node], st, e.op);
      StepExtends(S, cfgs[e.node], st, e.op);
      System(sys.nodes[e.node := st'], sys.log + st'.uses[|st.uses|..])
  }

  function RunSystem(S: Suite, cfgs: seq<Settings>, events: seq<Event>): (r: System)
    requires Order(S) > 0
    ensures |r.nodes| == |cfgs|
  {
    if events == [] then Start(|cfgs|)
    else Advance(S, cfgs, RunSystem(S, cfgs, Front(events)), Last(events))
  }

  // ---- What holds at every node ------------------------------------------------------

  /** A share in the history is what computeSignatureShare gives for its recorded inputs. */
  ghost predicate Computed(S: Suite, cfg: Settings, u: Use)
    requires Order(S) > 0
  {
    && u.msg == Message(u.token, cfg.issuer, cfg.keyId)
    && u.result == SignatureShare(S, cfg.nodeId, u.draw.nonces, cfg.secretKeyShare, u.msg, u.commitments,
                                  cfg.groupPublicKey, u.participants)
  }

  ghost predicate NodeSound(S: Suite, cfg: Settings, st: State)
    requires Order(S) > 0
  {
    Disciplined(st) && forall i :: 0 <= i < |st.uses| ==> Computed(S, cfg, st.uses[i])
  }

  lemma StepComputed(S: Suite, cfg: Settings, st: State, op: Op, i: nat)
    requires Order(S) > 0 && |st.uses| <= i < |Step(S, cfg, st, op).uses|
    ensures Computed(S, cfg, Step(S, cfg, st, op).uses[i])
  {
    hide SignatureShare, Message, SealShare, Toprf.Evaluate, VerifyPresented, Dpop.VerifyProof, Hex.NodeScalarToHex;
  }

  lemma StepSound(S: Suite, cfg: Settings, st: State, op: Op)
    requires Order(S) > 0 && NodeSound(S, cfg, st)
    ensures NodeSound(S, cfg, Step(S, cfg, st, op))
  {
    hide Step, Disciplined, Computed;
    var st' := Step(S, cfg, st, op);
    StepDisciplined(S, cfg, st, op);
    StepExtends(S, cfg, st, op);
    forall i | 0 <= i < |st'.uses|
      ensures Computed(S, cfg, st'.uses[i])
    {
      if i < |st.uses| {
        assert st'.uses[i] == st.uses[i];
      } else {
        StepComputed(S, cfg, st, op, i);
      }
    }
  }

  lemma {:induction false} SystemSound(S: Suite, cfgs: seq<Settings>, events: seq<Event>, n: nat)
    requires Order(S) > 0 && n < |cfgs|
    ensures NodeSound(S, cfgs[n], RunSystem(S, cfgs, events).nodes[n])
  {
    NodeOfRun(S, cfgs, events, n);
    hide *;
    if events == [] {
      NothingSound(S, cfgs[n]);
    } else {
      SystemSound(S, cfgs, Front(events), n);
      StepSound(S, cfgs[n], RunSystem(S, cfgs, Front(events)).nodes[n], Last(events).op);
    }
  }

  /** The log of a run is that of the run before its last event, and the shares that this event added. */
  lemma LogOfRun(S: Suite, cfgs: seq<Settings>, events: seq<Event>)
    requires Order(S) > 0
    ensures events == [] ==> RunSystem(S, cfgs, events).log == []
    ensures events != [] ==>
              var before, after, e := RunSystem(S, cfgs, Front(events)), RunSystem(S, cfgs, events), Last(events);
              && before.log <= after.log
              && (e.node >= |cfgs| ==> after.log == before.log)
              && (e.node < |cfgs| ==>
                    before.nodes[e.node].uses <= after.nodes[e.node].uses
                    && after.log[|before.log|..] == after.nodes[e.node].uses[|before.nodes[e.node].uses|..])
  {
    hide Step;
    if events != [] && Last(events).node < |cfgs| {
      var e, before := Last(events), RunSystem(S, cfgs, Front(events));
      StepExtends(S, cfgs[e.node], before.nodes[e.node], e.op);
    }
  }

  /** An event advances its own node and no other. */
  lemma NodeOfRun(S: Suite, cfgs: seq<Settings>, events: seq<Event>, n: nat)
    requires Order(S) > 0 && n < |cfgs|
    ensures events == [] ==> RunSystem(S, cfgs, events).nodes[n] == INITIAL
    ensures events != [] ==>
              var st, e := RunSystem(S, cfgs, Front(events)).nodes[n], Last(events);
              RunSystem(S, cfgs, events).nodes[n] == if e.node == n then Step(S, cfgs[n], st, e.op) else st
  {
    hide Step;
  }

  lemma NothingSound(S: Suite, cfg: Settings)
    requires Order(S) > 0
    ensures NodeSound(S, cfg, INITIAL)
  {
  }

  // ---- Rounds under interleaving -----------------------------------------------------

  /** The node was dealt a share of the key with these coefficients, under an id of its own. */
  ghost predicate DealtTo(S: Suite, cfg: Settings, cs: seq<int>)
    requires Order(S) > 0 && cs != []
  {
    && 0 < cfg.nodeId < Order(S)
    && cfg.secretKeyShare % Order(S) == Eval(cs, cfg.nodeId) % Order(S)
    && cfg.groupPublicKey == S.ed.mul(cs[0], S.ed.base)
  }

  /** The nodes were dealt shares of one key. */
  ghost predicate Dealt(S: Suite, cfgs: seq<Settings>, cs: seq<int>)
    requires Order(S) > 0
  {
    && cs != []
    && (forall i :: 0 <= i < |cfgs| ==> DealtTo(S, cfgs[i], cs))
    && (forall i, j :: 0 <= i < j < |cfgs| ==> cfgs[i].nodeId != cfgs[j].nodeId)
  }

  /** One participant of a round: which node it is, the nonces it drew for the round, its answer. */
  datatype Seat = Seat(node: nat, nonces: Nonces, answer: int)

  function SeatSigner(cfgs: seq<Settings>, s: Seat): Signer
    requires s.node < |cfgs|
  {
    Signer(cfgs[s.node].nodeId, s.nonces, cfgs[s.node].secretKeyShare)
  }

  ghost predicate SeatsOk(cfgs: seq<Settings>, seats: seq<Seat>)
  {
    && (forall k :: 0 <= k < |seats| ==> seats[k].node < |cfgs|)
    && (forall k, l :: 0 <= k < l < |seats| ==> seats[k].node != seats[l].node)
  }

  function SeatSigners(cfgs: seq<Settings>, seats: seq<Seat>): (q: seq<Signer>)
    requires forall k :: 0 <= k < |seats| ==> seats[k].node < |cfgs|
    ensures |q| == |seats| && forall k :: 0 <= k < |seats| ==> q[k] == SeatSigner(cfgs, seats[k])
  {
    seq(|seats|, k requires 0 <= k < |seats| => SeatSigner(cfgs, seats[k]))
  }

  function AnswersOf(seats: seq<Seat>): (zs: seq<int>)
    ensures |zs| == |seats| && forall k :: 0 <= k < |seats| ==> zs[k] == seats[k].answer
  {
    seq(|seats|, k requires 0 <= k < |seats| => seats[k].answer)
  }

  /** The round id was committed at this node with these nonces only, as distinct round ids ensure. */
  ghost predicate CommittedOnly(st: State, roundId: string, nonces: Nonces)
  {
    forall d :: 0 <= d < |st.draws| && st.draws[d].roundId == roundId ==> st.draws[d].nonces == nonces
  }

  /** The node answered the round over this message and these lists with the seat's answer. */
  ghost predicate Answered(st: State, roundId: string, msg: Bytes, commitments: seq<Commitment>,
                           participants: seq<int>, answer: int)
  {
    exists i :: 0 <= i < |st.uses| && IsAnswer(st.uses[i], roundId, msg, commitments, participants, answer)
  }

  ghost predicate IsAnswer(u: Use, roundId: string, msg: Bytes, commitments: seq<Commitment>,
                           participants: seq<int>, answer: int)
  {
    u.roundId == roundId && u.msg == msg && u.commitments == commitments && u.participants == participants
    && u.result == Ok(answer)
  }

  lemma SeatAnswers(S: Suite, cfg: Settings, st: State, roundId: string, nonces: Nonces, msg: Bytes,
                    commitments: seq<Commitment>, participants: seq<int>, answer: int)
    requires Order(S) > 0 && NodeSound(S, cfg, st)
    requires CommittedOnly(st, roundId, nonces) && Answered(st, roundId, msg, commitments, participants, answer)
    ensures SignatureShare(S, cfg.nodeId, nonces, cfg.secretKeyShare, msg, commitments, cfg.groupPublicKey,
                           participants)
            == Ok(answer)
  {
    hide SignatureShare;
    var i :| 0 <= i < |st.uses| && IsAnswer(st.uses[i], roundId, msg, commitments, participants, answer);
    var u := st.uses[i];
    assert Computed(S, cfg, u);
    assert st.draws[u.draw.serial] == Drawn(u.roundId, u.draw.nonces);
  }

  lemma SeatsFormQuorum(S: Suite, cfgs: seq<Settings>, cs: seq<int>, seats: seq<Seat>)
    requires Order(S) > 0 && Dealt(S, cfgs, cs) && SeatsOk(cfgs, seats) && |seats| >= |cs|
    ensures Quorum(S, SeatSigners(cfgs, seats), cs)
  {
    hide Eval;
    var q := SeatSigners(cfgs, seats);
    forall k, l | 0 <= k < l < |q|
      ensures SignerIds(q)[k] != SignerIds(q)[l]
    {
      var a, b := seats[k].node, seats[l].node;
      assert a < b || b < a;
    }
  }

  /**
   * In every run, however the calls of different rounds interleave at the nodes: if the participants of
   * a round number at least the threshold and have all answered it over one message and the commitments
   * they published for it, the aggregate of their answers verifies on that message under the group key.
   */
  lemma EveryCompleteRoundVerifies(S: Suite, cfgs: seq<Settings>, events: seq<Event>, cs: seq<int>, roundId: string,
                                   seats: seq<Seat>, msg: Bytes, commitments: seq<Commitment>, participants: seq<int>)
    requires IsSuite(S) && Dealt(S, cfgs, cs) && SeatsOk(cfgs, seats) && |seats| >= |cs|
    requires forall k :: 0 <= k < |seats| ==>
               CommittedOnly(RunSystem(S, cfgs, events).nodes[seats[k].node], roundId, seats[k].nonces)
    requires forall k :: 0 <= k < |seats| ==>
               Answered(RunSystem(S, cfgs, events).nodes[seats[k].node], roundId, msg, commitments, participants,
                        seats[k].answer)
    requires multiset(commitments) == multiset(PublishedAll(S, SeatSigners(cfgs, seats)))
    requires multiset(participants) == multiset(SignerIds(SeatSigners(cfgs, seats)))
    ensures var R := GroupCommitment(S, msg, commitments);
            R.Ok? && Verifies(S, Aggregate(R.value, AnswersOf(seats), Order(S)), msg, S.ed.mul(cs[0], S.ed.base))
  {
    hide IsSuite, Quorum, Verifies, Aggregate, GroupCommitment, SignatureShare, NodeSound, IsGroup, IsPrime, RunSystem;
    var Y := S.ed.mul(cs[0], S.ed.base);
    var q, zs := SeatSigners(cfgs, seats), AnswersOf(seats);
    OrderIsPrime(S);
    SeatsFormQuorum(S, cfgs, cs, seats);
    forall k | 0 <= k < |q|
      ensures ShareOf(S, q[k], msg, commitments, Y, participants) == Ok(zs[k])
    {
      var n := seats[k].node;
      SystemSound(S, cfgs, events, n);
      assert DealtTo(S, cfgs[n], cs);
      SeatAnswers(S, cfgs[n], RunSystem(S, cfgs, events).nodes[n], roundId, seats[k].nonces, msg, commitments,
                  participants, seats[k].answer);
    }
    assert Answers(S, q, zs, msg, commitments, Y, participants);
    AggregateVerifies(S, q, cs, zs, zs, msg, commitments, participants);
  }
}
