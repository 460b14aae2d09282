/**
 * One node over whole runs: every nonce pair it draws enters at most one signature share, and a
 * refused call touches an open round only when it got as far as taking the round's nonces.
 */
module Rounds {
  import opened Arith
  import opened Seqs
  import opened Bytes
  import opened Suites
  import opened Frost
  import opened Tokens
  import opened Node
  import Toprf
  import Dpop
  import Hex

  datatype Op =
    | OpRegister(user: UserRecord)
    | OpCommit(roundId: string, nonces: Nonces)
    | OpSignOn(roundId: string, signOn: SignOnRequest, commitment: Commitment, at: int)
    | OpSign(accessRound: string, refreshRound: string, sign: SignRequest,
             accessCommitment: Commitment, refreshCommitment: Commitment, at: int)

  function Step(S: Suite, cfg: Settings, st: State, op: Op): State
    requires Order(S) > 0
  {
    match op
    case OpRegister(user) => Register(st, user)
    case OpCommit(roundId, nonces) => Commit(st, roundId, nonces)
    case OpSignOn(roundId, req, c, at) => SignOn(S, cfg, st, roundId, req, c, at).0
    case OpSign(ar, rr, req, ac, rc, at) => Sign(S, cfg, st, ar, rr, req, ac, rc, at).0
  }

  /** A step is what the call does to the node's state. */
  lemma StepRules(S: Suite, cfg: Settings, st: State, op: Op)
    requires Order(S) > 0
    ensures op.OpRegister? ==> Step(S, cfg, st, op).users == st.users[op.user.username := op.user]
    ensures op.OpCommit? ==>
              op.roundId in Step(S, cfg, st, op).active && Step(S, cfg, st, op).active[op.roundId].nonces == op.nonces
    ensures op.OpSignOn? ==> Step(S, cfg, st, op) == SignOn(S, cfg, st, op.roundId, op.signOn, op.commitment, op.at).0
    ensures op.OpSign? ==>
              Step(S, cfg, st, op)
              == Sign(S, cfg, st, op.accessRound, op.refreshRound, op.sign, op.accessCommitment, op.refreshCommitment,
                      op.at).0
  {
    hide SignOn, Sign;
  }

  /** The state after a sequence of calls, accepted or not. */
  function Run(S: Suite, cfg: Settings, ops: seq<Op>): State
    requires Order(S) > 0
  {
    if ops == [] then INITIAL else Step(S, cfg, Run(S, cfg, Front(ops)), Last(ops))
  }

  /** A run is its calls, one after the other, from the empty state. */
  lemma RunRules(S: Suite, cfg: Settings, ops: seq<Op>, op: Op)
    requires Order(S) > 0
    ensures Run(S, cfg, []) == INITIAL && Run(S, cfg, ops + [op]) == Step(S, cfg, Run(S, cfg, ops), op)
  {
    hide Step;
    assert Front(ops + [op]) == ops && Last(ops + [op]) == op;
  }

  // ---- The nonce discipline ----------------------------------------------------------

  ghost predicate ActiveSound(st: State)
  {
    forall r :: r in st.active ==>
      st.active[r].serial < |st.draws| && st.draws[st.active[r].serial] == Drawn(r, st.active[r].nonces)
  }

  ghost predicate UsesSound(st: State)
  {
    forall i :: 0 <= i < |st.uses| ==>
      st.uses[i].draw.serial < |st.draws|
      && st.draws[st.uses[i].draw.serial] == Drawn(st.uses[i].roundId, st.uses[i].draw.nonces)
  }

  ghost predicate NotSpent(st: State, serial: nat)
  {
    forall i :: 0 <= i < |st.uses| ==> st.uses[i].draw.serial != serial
  }

  ghost predicate OpenUnspent(st: State)
  {
    forall r :: r in st.active ==> NotSpent(st, st.active[r].serial)
  }

  ghost predicate SpentOnce(st: State)
  {
    forall i, j :: 0 <= i < j < |st.uses| ==> st.uses[i].draw.serial != st.uses[j].draw.serial
  }

  /** Open rounds hold unspent nonces, and what was spent was spent once. */
  ghost predicate Disciplined(st: State)
  {
    ActiveSound(st) && UsesSound(st) && OpenUnspent(st) && SpentOnce(st)
  }

  lemma CommitDisciplined(st: State, roundId: string, nonces: Nonces)
    requires Disciplined(st)
    ensures Disciplined(Commit(st, roundId, nonces))
  {
    var st' := Commit(st, roundId, nonces);
    assert forall i :: 0 <= i < |st.draws| ==> st'.draws[i] == st.draws[i];
    forall r | r in st'.active
      ensures NotSpent(st', st'.active[r].serial)
    {
      if r != roundId {
        assert NotSpent(st, st.active[r].serial);
      }
    }
  }

  /** Closing rounds and spending one of the nonces that were closed. */
  lemma SpendDisciplined(st: State, roundId: string, closed: set<string>, use: Use)
    requires Disciplined(st) && roundId in st.active && roundId in closed
    requires use.roundId == roundId && use.draw == st.active[roundId]
    ensures Disciplined(st.(active := st.active - closed, uses := st.uses + [use]))
  {
    var st' := st.(active := st.active - closed, uses := st.uses + [use]);
    assert NotSpent(st, st.active[roundId].serial);
    forall r | r in st'.active
      ensures NotSpent(st', st'.active[r].serial)
    {
      assert NotSpent(st, st.active[r].serial);
      assert st.draws[st.active[r].serial].roundId == r;
    }
  }

  lemma CloseDisciplined(st: State, closed: set<string>)
    requires Disciplined(st)
    ensures Disciplined(st.(active := st.active - closed))
  {
    var st' := st.(active := st.active - closed);
    forall r | r in st'.active
      ensures NotSpent(st', st'.active[r].serial)
    {
      assert NotSpent(st, st.active[r].serial);
    }
  }

  lemma SignOnDisciplined(S: Suite, cfg: Settings, st: State, roundId: string, req: SignOnRequest, c: Commitment,
                          at: int)
    requires Order(S) > 0 && Disciplined(st)
    ensures Disciplined(SignOn(S, cfg, st, roundId, req, c, at).0)
  {
    hide Disciplined, Spend, SignOnAnswer;
    var check := CheckSignOn(cfg, st, roundId, req, at);
    if check.Ok? {
      CloseDisciplined(st, {roundId});
      var use := Spend(S, cfg, roundId, st.active[roundId], AssertionOf(check.value, req), req.commitments,
                       req.allParticipants, at);
      SpendShape(S, cfg, roundId, st.active[roundId], AssertionOf(check.value, req), req.commitments,
                 req.allParticipants, at);
      SpendDisciplined(st, roundId, {roundId}, use);
    }
  }

  lemma SpendShape(S: Suite, cfg: Settings, roundId: string, draw: Draw, token: Token, commitments: seq<Commitment>,
                   participants: seq<int>, at: int)
    requires Order(S) > 0
    ensures var u := Spend(S, cfg, roundId, draw, token, commitments, participants, at);
            u.roundId == roundId && u.draw == draw && u.token == token && u.at == at
            && u.commitments == commitments && u.participants == participants
            && u.msg == Message(token, cfg.issuer, cfg.keyId)
  {
  }

  /** Closing two rounds and spending the nonces of the first, or of both. */
  lemma PairDisciplined(st: State, ar: string, rr: string, access: Use, refresh: Use)
    requires Disciplined(st) && ar != rr && ar in st.active && rr in st.active
    requires access.roundId == ar && access.draw == st.active[ar]
    requires refresh.roundId == rr && refresh.draw == st.active[rr]
    ensures Disciplined(st.(active := st.active - {ar, rr}, uses := st.uses + [access]))
    ensures Disciplined(st.(active := st.active - {ar, rr}, uses := st.uses + [access, refresh]))
  {
    hide Disciplined;
    SpendDisciplined(st, ar, {ar, rr}, access);
    SpendDisciplined(st, ar, {ar}, access);
    var mid := st.(active := st.active - {ar}, uses := st.uses + [access]);
    SpendDisciplined(mid, rr, {rr}, refresh);
    assert st.active - {ar} - {rr} == st.active - {ar, rr};
    assert st.uses + [access] + [refresh] == st.uses + [access, refresh];
  }

  lemma SignDisciplined(S: Suite, cfg: Settings, st: State, ar: string, rr: string, req: SignRequest,
                        ac: Commitment, rc: Commitment, at: int)
    requires Order(S) > 0 && Disciplined(st)
    ensures Disciplined(Sign(S, cfg, st, ar, rr, req, ac, rc, at).0)
  {
    hide Disciplined, Spend, VerifyPresented, SignatureShare, Hex.NodeScalarToHex, Dpop.VerifyProof;
    var check := CheckSign(S, cfg, st, ar, rr, req, at);
    if check.Ok? {
      var access := Spend(S, cfg, ar, st.active[ar], AccessOf(check.value, req), req.commitments, req.allParticipants,
                          at);
      var refresh := Spend(S, cfg, rr, st.active[rr], RefreshOf(check.value, req), req.refreshCommitments,
                           req.allParticipants, at);
      SpendShape(S, cfg, ar, st.active[ar], AccessOf(check.value, req), req.commitments, req.allParticipants, at);
      SpendShape(S, cfg, rr, st.active[rr], RefreshOf(check.value, req), req.refreshCommitments, req.allParticipants,
                 at);
      PairDisciplined(st, ar, rr, access, refresh);
    }
  }

  lemma StepDisciplined(S: Suite, cfg: Settings, st: State, op: Op)
    requires Order(S) > 0 && Disciplined(st)
    ensures Disciplined(Step(S, cfg, st, op))
  {
    hide SignOn, Sign;
    match op {
      case OpRegister(user) =>
        forall r | r in st.active
          ensures NotSpent(Register(st, user), st.active[r].serial)
        {
          assert NotSpent(st, st.active[r].serial);
        }
      case OpCommit(roundId, nonces) => CommitDisciplined(st, roundId, nonces);
      case OpSignOn(roundId, req, c, at) => SignOnDisciplined(S, cfg, st, roundId, req, c, at);
      case OpSign(ar, rr, req, ac, rc, at) => SignDisciplined(S, cfg, st, ar, rr, req, ac, rc, at);
    }
  }

  lemma {:induction false} RunDisciplined(S: Suite, cfg: Settings, ops: seq<Op>)
    requires Order(S) > 0
    ensures Disciplined(Run(S, cfg, ops))
  {
    if ops != [] {
      hide Disciplined, Step;
      RunDisciplined(S, cfg, Front(ops));
      StepDisciplined(S, cfg, Run(S, cfg, Front(ops)), Last(ops));
    }
  }

  /**
   * Over every sequence of calls each drawn nonce pair enters at most one signature share, and every
   * share is made with the nonces that were drawn, under that number, for its own round.
   */
  lemma NoncesUsedOnce(S: Suite, cfg: Settings, ops: seq<Op>, i: nat, j: nat)
    requires Order(S) > 0 && i < |Run(S, cfg, ops).uses| && j < |Run(S, cfg, ops).uses|
    ensures var st := Run(S, cfg, ops);
            && (st.uses[i].draw.serial == st.uses[j].draw.serial ==> i == j)
            && st.uses[i].draw.serial < |st.draws|
            && st.draws[st.uses[i].draw.serial] == Drawn(st.uses[i].roundId, st.uses[i].draw.nonces)
  {
    RunDisciplined(S, cfg, ops);
  }

  // ---- What a call leaves alone ------------------------------------------------------

  /**
   * A sign-on changes the state exactly when all its checks pass; then it closes its own round and no
   * other. An answer means that one share was made with the nonces of that round.
   */
  lemma SignOnFrame(S: Suite, cfg: Settings, st: State, roundId: string, req: SignOnRequest, c: Commitment, at: int)
    requires Order(S) > 0
    ensures var (st', r) := SignOn(S, cfg, st, roundId, req, c, at);
            && (st' == st <==> CheckSignOn(cfg, st, roundId, req, at).Err?)
            && st'.active == (if CheckSignOn(cfg, st, roundId, req, at).Err? then st.active else st.active - {roundId})
            && st'.users == st.users && st'.draws == st.draws
            && (r.Ok? ==> roundId in st.active && |st'.uses| == |st.uses| + 1
                          && Last(st'.uses).draw == st.active[roundId])
  {
    hide SignatureShare, Message, SealShare, Toprf.Evaluate;
  }

  /** The same for token signing, which closes its two rounds together. */
  lemma SignFrame(S: Suite, cfg: Settings, st: State, ar: string, rr: string, req: SignRequest,
                  ac: Commitment, rc: Commitment, at: int)
    requires Order(S) > 0
    ensures var (st', r) := Sign(S, cfg, st, ar, rr, req, ac, rc, at);
            && (st' == st <==> CheckSign(S, cfg, st, ar, rr, req, at).Err?)
            && st'.active == (if CheckSign(S, cfg, st, ar, rr, req, at).Err? then st.active else st.active - {ar, rr})
            && st'.users == st.users && st'.draws == st.draws
            && (r.Ok? ==> ar != rr && ar in st.active && rr in st.active
                          && |st'.uses| == |st.uses| + 2
                          && st'.uses[|st.uses|].draw == st.active[ar] && Last(st'.uses).draw == st.active[rr])
  {
    hide SignatureShare, Message, VerifyPresented, Dpop.VerifyProof, Hex.NodeScalarToHex;
  }
}
