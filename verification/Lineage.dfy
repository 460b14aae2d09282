/**
 * Where tokens come from. Assuming a group signature verifies only on a message that nodes signed,
 * every access or refresh token descends from a signed assertion for a registered user, however long
 * the chain of refreshes; and a credential is spendable only for a bounded time after it was signed.
 */
module Lineage {
  import opened Arith
  import opened Seqs
  import opened Bytes
  import opened Json
  import opened CanonicalJson
  import opened Suites
  import opened Frost
  import opened Jwt
  import opened Tokens
  import opened Node
  import opened Rounds
  import opened Federation
  import Dpop
  import Hex
  import Shamir
  import Toprf

  // ---- Reading a credential back -----------------------------------------------------

  /** What a node reads out of a token of this group is what was signed; the kind must be the one asked for. */
  lemma CredentialIsSigned(S: Suite, cfg: Settings, text: string, typ: string, now: int, t: Token, issuer: string,
                           kid: string)
    requires IsSuite(S) && SignedBytes(text) == Some(Message(t, issuer, kid))
    requires VerifyCredential(S, cfg, text, typ, now).Ok?
    ensures var c := VerifyCredential(S, cfg, text, typ, now).value;
            && typ == Typ(t) && !t.Access?
            && issuer == cfg.issuer
            && c.id == t.id && c.iat == t.iat && c.exp == t.exp
            && t.id.sub != "" && t.id.clientId != "" && t.id.jkt != ""
    ensures t.exp != 0 ==> now <= t.exp
  {
    OrderIsPrime(S);
    HeaderWellFormed(Typ(t), kid);
    PayloadWellFormed(t, issuer);
    VerifiedContents(S, text, cfg.groupPublicKey, now, Header(Typ(t), kid), Payload(t, issuer));
    ReadIsSigned(t, issuer, kid, typ, cfg.issuer);
    TokenClaims(t, issuer);
    ToNumberOf(S, t.exp);
    hide IsSuite, VerifyJwt, Canon, Payload, Header, Message, ReadCredential;
  }

  lemma ReadIsSigned(t: Token, issuer: string, kid: string, typ: string, own: string)
    requires ReadCredential(Canon(Header(Typ(t), kid)), Canon(Payload(t, issuer)), typ, own).Ok?
    ensures var c := ReadCredential(Canon(Header(Typ(t), kid)), Canon(Payload(t, issuer)), typ, own).value;
            && typ == Typ(t) && issuer == own
            && c.id == t.id && c.iat == t.iat && c.exp == t.exp
            && t.id.sub != "" && t.id.clientId != "" && t.id.jkt != "" && !t.Access?
  {
    HeaderWellFormed(Typ(t), kid);
    TokenClaims(t, issuer);
    if t.Access? {
      AccessHasNoClientId(t, issuer);
    }
    hide Canon, Payload, Header, Cnf, Find, Typ, ReadCredential;
    ReadByFields(Canon(Header(Typ(t), kid)), Canon(Payload(t, issuer)), typ, Typ(t), issuer, own, t.id, t.iat, t.exp);
  }

  /** The reading of a credential whose fields are known; only the client may be missing. */
  lemma ReadByFields(h: Json, p: Json, typ: string, kind: string, issuer: string, own: string, id: Identity, iat: int,
                     exp: int)
    requires Field(h, "typ") == Some(Str(kind)) && Field(p, "iss") == Some(Str(issuer))
             && Field(p, "sub") == Some(Str(id.sub))
    requires Field(p, "scope") == Some(Str(id.scope)) && Field(p, "cnf") == Some(Cnf(id.jkt))
    requires Field(p, "iat") == Some(Num(iat)) && Field(p, "exp") == Some(Num(exp))
    requires Field(p, "client_id") == None || Field(p, "client_id") == Some(Str(id.clientId))
    ensures var c := ReadCredential(h, p, typ, own);
            && (c.Ok? <==> typ == kind && issuer == own && issuer != "" && FullIdentity(id)
                           && Field(p, "client_id").Some?)
            && (c.Ok? ==> c.value.id == id && c.value.iat == iat && c.value.exp == exp
                          && c.value.aud == OptionalText(Field(p, "aud")))
  {
    CnfFields(id.jkt);
    hide Cnf, Find;
  }

  /** The access token payload has no client_id, so it could not be read as a credential anyway. */
  lemma AccessHasNoClientId(t: Token, issuer: string)
    requires t.Access?
    ensures Field(Canon(Payload(t, issuer)), "client_id") == None
  {
    hide Cnf;
    var v := Payload(t, issuer);
    var ms := v.members;
    PayloadWellFormed(t, issuer);
    FindNone(ms, "client_id");
    assert forall i :: 0 <= i < |ms| ==> ms[i].key != "client_id";
    CanonField(v, "client_id");
  }

  /** An access token is never accepted as a credential, under either grant, at any node, at any time. */
  lemma AccessTokenNeverCredential(S: Suite, cfg: Settings, text: string, now: int, t: Token, issuer: string,
                                   kid: string)
    requires IsSuite(S) && t.Access? && SignedBytes(text) == Some(Message(t, issuer, kid))
    ensures VerifyAssertion(S, cfg, text, now).Err? && VerifyRefreshToken(S, cfg, text, now).Err?
  {
    OrderIsPrime(S);
    if VerifyCredential(S, cfg, text, "JWT", now).Ok? {
      CredentialIsSigned(S, cfg, text, "JWT", now, t, issuer, kid);
    }
    if VerifyCredential(S, cfg, text, "refresh+jwt", now).Ok? {
      CredentialIsSigned(S, cfg, text, "refresh+jwt", now, t, issuer, kid);
    }
  }

  // ---- The assumption on signatures --------------------------------------------------

  /** The credential text was signed by some node earlier. */
  ghost predicate SignedBefore(log: seq<Use>, text: string)
  {
    exists k :: 0 <= k < |log| && log[k].result.Ok? && SignedBytes(text) == Some(log[k].msg)
  }

  /** Unforgeability along a run: whatever verifies under the group key at a node was signed earlier. */
  ghost predicate Unforged(S: Suite, cfgs: seq<Settings>, events: seq<Event>)
    requires Order(S) > 0
  {
    events == [] ||
    (Unforged(S, cfgs, Front(events)) && NotForged(S, cfgs, RunSystem(S, cfgs, Front(events)), Last(events)))
  }

  ghost predicate NotForged(S: Suite, cfgs: seq<Settings>, sys: System, e: Event)
    requires Order(S) > 0
  {
    e.op.OpSign? && e.node < |cfgs|
    && VerifyJwt(S, Presented(e.op.sign), cfgs[e.node].groupPublicKey, e.op.at).Ok?
    ==> SignedBefore(sys.log, Presented(e.op.sign))
  }

  // ---- The history of signed tokens --------------------------------------------------

  /** An assertion for this identity was signed among the first k shares. */
  ghost predicate AssertedBefore(log: seq<Use>, k: nat, id: Identity)
  {
    exists j :: 0 <= j < k && j < |log| && log[j].token.Assertion? && log[j].token.id == id && log[j].result.Ok?
  }

  /** The limits a node puts on what it signs, at the time it signs. */
  ghost predicate InLimits(u: Use)
  {
    && -CLOCK_SKEW <= u.at - u.token.iat <= CLOCK_SKEW
    && match u.token
       case Assertion(_, _, iat, exp) => InRange(exp - iat, MAX_ASSERTION_LIFETIME)
       case Access(_, iat, exp, _) => InRange(exp - iat, MAX_ACCESS_TOKEN_LIFETIME)
       case Refresh(_, iat, exp) => InRange(exp - iat, MAX_REFRESH_LIFETIME)
  }

  ghost predicate IsMessageOf(cfgs: seq<Settings>, u: Use)
  {
    exists n :: 0 <= n < |cfgs| && u.msg == Message(u.token, cfgs[n].issuer, cfgs[n].keyId)
  }

  /** What is not an assertion speaks for the identity of an earlier one. */
  ghost predicate Descends(log: seq<Use>, k: nat)
    requires k < |log|
  {
    log[k].token.Assertion? || AssertedBefore(log, k, log[k].token.id)
  }

  ghost predicate EntrySound(cfgs: seq<Settings>, log: seq<Use>, k: nat)
    requires k < |log|
  {
    IsMessageOf(cfgs, log[k]) && InLimits(log[k]) && Descends(log, k)
  }

  ghost predicate HistorySound(cfgs: seq<Settings>, log: seq<Use>)
  {
    forall k :: 0 <= k < |log| ==> EntrySound(cfgs, log, k)
  }

  /** Entries stay sound as the log grows. */
  lemma EntryKept(cfgs: seq<Settings>, log: seq<Use>, log': seq<Use>, k: nat)
    requires k < |log| && log <= log' && EntrySound(cfgs, log, k)
    ensures EntrySound(cfgs, log', k)
  {
    hide IsMessageOf, InLimits;
    assert log'[k] == log[k];
    var u := log[k];
    if !u.token.Assertion? {
      var j :| 0 <= j < k && j < |log| && log[j].token.Assertion? && log[j].token.id == u.token.id && log[j].result.Ok?;
      assert log'[j] == log[j];
    }
  }

  /** The shares a step adds, described by the tokens they sign. */
  lemma SignOnAdds(S: Suite, cfg: Settings, st: State, roundId: string, req: SignOnRequest, c: Commitment, at: int,
                   i: nat)
    requires Order(S) > 0
    requires |st.uses| <= i < |SignOn(S, cfg, st, roundId, req, c, at).0.uses|
    ensures var u := SignOn(S, cfg, st, roundId, req, c, at).0.uses[i];
            && u.msg == Message(u.token, cfg.issuer, cfg.keyId) && InLimits(u) && u.token.Assertion?
            && req.username in st.users && u.token.id.sub == st.users[req.username].sub
  {
    hide SignatureShare, Message, SealShare, Toprf.Evaluate;
  }

  lemma SignAdds(S: Suite, cfg: Settings, st: State, ar: string, rr: string, req: SignRequest,
                 ac: Commitment, rc: Commitment, at: int, i: nat)
    requires Order(S) > 0
    requires |st.uses| <= i < |Sign(S, cfg, st, ar, rr, req, ac, rc, at).0.uses|
    ensures var u := Sign(S, cfg, st, ar, rr, req, ac, rc, at).0.uses[i];
            && u.msg == Message(u.token, cfg.issuer, cfg.keyId) && InLimits(u) && !u.token.Assertion?
            && CheckSign(S, cfg, st, ar, rr, req, at).Ok?
            && u.token.id == CheckSign(S, cfg, st, ar, rr, req, at).value.id
  {
    hide SignatureShare, Message, VerifyPresented, Dpop.VerifyProof, Hex.NodeScalarToHex;
  }

  lemma CheckedIsVerified(S: Suite, cfg: Settings, st: State, ar: string, rr: string, req: SignRequest, at: int)
    requires Order(S) > 0 && CheckSign(S, cfg, st, ar, rr, req, at).Ok?
    ensures VerifyPresented(S, cfg, req, at) == CheckSign(S, cfg, st, ar, rr, req, at)
    ensures var c := CheckSign(S, cfg, st, ar, rr, req, at).value;
            Dpop.VerifyProof(S, req.dpopProof, "POST", TokenEndpoint(cfg), c.id.jkt, CLOCK_SKEW, at).Ok?
  {
    hide VerifyPresented, Dpop.VerifyProof;
  }

  /** A verified credential went through verifyCredential for the kind that its grant names. */
  lemma PresentedIsCredential(S: Suite, cfg: Settings, req: SignRequest, at: int)
    requires Order(S) > 0 && VerifyPresented(S, cfg, req, at).Ok?
    ensures var typ := if req.grant.AuthorizationCode? then "JWT" else "refresh+jwt";
            && VerifyCredential(S, cfg, Presented(req), typ, at) == VerifyPresented(S, cfg, req, at)
            && VerifyJwt(S, Presented(req), cfg.groupPublicKey, at).Ok?
  {
    hide VerifyJwt, ReadCredential;
  }

  /** A credential that names a signed message carries the identity of an assertion in the log. */
  lemma SignedIdentityAsserted(S: Suite, cfgs: seq<Settings>, log: seq<Use>, cfg: Settings, text: string, typ: string,
                               at: int, k: nat)
    requires IsSuite(S) && k < |log| && log[k].result.Ok? && SignedBytes(text) == Some(log[k].msg)
    requires EntrySound(cfgs, log, k) && VerifyCredential(S, cfg, text, typ, at).Ok?
    ensures AssertedBefore(log, |log|, VerifyCredential(S, cfg, text, typ, at).value.id)
  {
    hide IsSuite, VerifyCredential, Message, InLimits, IsPrime, IsGroup, SignedBytes;
    OrderIsPrime(S);
    var u := log[k];
    var n :| 0 <= n < |cfgs| && u.msg == Message(u.token, cfgs[n].issuer, cfgs[n].keyId);
    CredentialIsSigned(S, cfg, text, typ, at, u.token, cfgs[n].issuer, cfgs[n].keyId);
    if !u.token.Assertion? {
      assert AssertedBefore(log, k, u.token.id);
    }
  }

  /** The identity of a spent credential was asserted earlier in the log. */
  lemma SpentIdentityAsserted(S: Suite, cfgs: seq<Settings>, sys: System, e: Event)
    requires IsSuite(S) && e.op.OpSign? && e.node < |cfgs| == |sys.nodes|
    requires HistorySound(cfgs, sys.log) && NotForged(S, cfgs, sys, e)
    requires CheckSign(S, cfgs[e.node], sys.nodes[e.node], e.op.accessRound, e.op.refreshRound, e.op.sign, e.op.at).Ok?
    ensures var c := CheckSign(S, cfgs[e.node], sys.nodes[e.node], e.op.accessRound, e.op.refreshRound, e.op.sign,
                               e.op.at).value;
            AssertedBefore(sys.log, |sys.log|, c.id)
  {
    hide IsSuite, CheckSign, VerifyPresented, VerifyCredential, VerifyJwt, EntrySound, AssertedBefore, SignedBytes;
    OrderIsPrime(S);
    var cfg, req, at := cfgs[e.node], e.op.sign, e.op.at;
    CheckedIsVerified(S, cfg, sys.nodes[e.node], e.op.accessRound, e.op.refreshRound, req, at);
    PresentedIsCredential(S, cfg, req, at);
    var text := Presented(req);
    assert SignedBefore(sys.log, text);
    var k :| 0 <= k < |sys.log| && sys.log[k].result.Ok? && SignedBytes(text) == Some(sys.log[k].msg);
    SignedIdentityAsserted(S, cfgs, sys.log, cfg, text, if req.grant.AuthorizationCode? then "JWT" else "refresh+jwt",
                           at, k);
  }

  /** What must be known of a new share for its entry to be sound. */
  ghost predicate Sourced(cfg: Settings, log: seq<Use>, u: Use)
  {
    && u.msg == Message(u.token, cfg.issuer, cfg.keyId) && InLimits(u)
    && (u.token.Assertion? || AssertedBefore(log, |log|, u.token.id))
  }

  lemma NewShareSourced(S: Suite, cfgs: seq<Settings>, sys: System, e: Event, i: nat)
    requires IsSuite(S) && e.node < |cfgs| == |sys.nodes|
    requires HistorySound(cfgs, sys.log) && NotForged(S, cfgs, sys, e)
    requires |sys.nodes[e.node].uses| <= i < |Step(S, cfgs[e.node], sys.nodes[e.node], e.op).uses|
    ensures Sourced(cfgs[e.node], sys.log, Step(S, cfgs[e.node], sys.nodes[e.node], e.op).uses[i])
  {
    hide IsSuite, SignOn, Sign, CheckSign, Message, InLimits, NotForged, EntrySound, AssertedBefore;
    OrderIsPrime(S);
    var st, cfg := sys.nodes[e.node], cfgs[e.node];
    match e.op {
      case OpRegister(_) =>
      case OpCommit(_, _) =>
      case OpSignOn(roundId, req, c, at) => SignOnAdds(S, cfg, st, roundId, req, c, at, i);
      case OpSign(ar, rr, req, ac, rc, at) =>
        SignAdds(S, cfg, st, ar, rr, req, ac, rc, at, i);
        SpentIdentityAsserted(S, cfgs, sys, e);
    }
  }

  lemma SourcedIsSound(cfgs: seq<Settings>, log: seq<Use>, log': seq<Use>, n: nat, u: Use, k: nat)
    requires n < |cfgs| && Sourced(cfgs[n], log, u)
    requires log <= log' && |log| <= k < |log'| && log'[k] == u
    ensures EntrySound(cfgs, log', k)
  {
    hide InLimits, Message;
    if !u.token.Assertion? {
      var j :| 0 <= j < |log| && log[j].token.Assertion? && log[j].token.id == u.token.id && log[j].result.Ok?;
      assert log'[j] == log[j];
    }
  }

  /** Where the new entries of the log come from. */
  lemma NewEntry(S: Suite, cfgs: seq<Settings>, sys: System, e: Event, k: nat)
    requires Order(S) > 0 && e.node < |cfgs| == |sys.nodes|
    requires |sys.log| <= k < |Advance(S, cfgs, sys, e).log|
    ensures var st', i := Step(S, cfgs[e.node], sys.nodes[e.node], e.op), k - |sys.log| + |sys.nodes[e.node].uses|;
            && i < |st'.uses| && Advance(S, cfgs, sys, e).log[k] == st'.uses[i]
            && sys.log <= Advance(S, cfgs, sys, e).log
  {
    hide Step;
    StepExtends(S, cfgs[e.node], sys.nodes[e.node], e.op);
  }

  lemma NewEntrySound(S: Suite, cfgs: seq<Settings>, sys: System, e: Event, k: nat)
    requires IsSuite(S) && e.node < |cfgs| == |sys.nodes|
    requires HistorySound(cfgs, sys.log) && NotForged(S, cfgs, sys, e)
    requires |sys.log| <= k < |Advance(S, cfgs, sys, e).log|
    ensures EntrySound(cfgs, Advance(S, cfgs, sys, e).log, k)
  {
    hide *;
    OrderIsPrime(S);
    NewEntry(S, cfgs, sys, e, k);
    var i := k - |sys.log| + |sys.nodes[e.node].uses|;
    NewShareSourced(S, cfgs, sys, e, i);
    SourcedIsSound(cfgs, sys.log, Advance(S, cfgs, sys, e).log, e.node,
                   Step(S, cfgs[e.node], sys.nodes[e.node], e.op).uses[i], k);
  }

  /** Every call at every node keeps the history sound. */
  lemma AdvanceKeepsHistory(S: Suite, cfgs: seq<Settings>, sys: System, e: Event)
    requires IsSuite(S) && |sys.nodes| == |cfgs|
    requires HistorySound(cfgs, sys.log) && NotForged(S, cfgs, sys, e)
    ensures HistorySound(cfgs, Advance(S, cfgs, sys, e).log)
  {
    hide IsSuite, Step, EntrySound, NotForged;
    OrderIsPrime(S);
    var log' := Advance(S, cfgs, sys, e).log;
    if e.node < |cfgs| {
      StepExtends(S, cfgs[e.node], sys.nodes[e.node], e.op);
      forall k | 0 <= k < |log'|
        ensures EntrySound(cfgs, log', k)
      {
        if k < |sys.log| {
          EntryKept(cfgs, sys.log, log', k);
        } else {
          NewEntrySound(S, cfgs, sys, e, k);
        }
      }
    }
  }

  lemma {:induction false} RunHistorySound(S: Suite, cfgs: seq<Settings>, events: seq<Event>)
    requires IsSuite(S) && Unforged(S, cfgs, events)
    ensures HistorySound(cfgs, RunSystem(S, cfgs, events).log)
  {
    hide IsSuite, Advance, EntrySound, NotForged;
    OrderIsPrime(S);
    if events != [] {
      RunHistorySound(S, cfgs, Front(events));
      AdvanceKeepsHistory(S, cfgs, RunSystem(S, cfgs, Front(events)), Last(events));
    }
  }

  // ---- The user records behind assertions --------------------------------------------

  /** The system when event m arrives. */
  function Before(S: Suite, cfgs: seq<Settings>, events: seq<Event>, m: nat): (r: System)
    requires Order(S) > 0 && m <= |events|
    ensures |r.nodes| == |cfgs|
  {
    RunSystem(S, cfgs, events[..m])
  }

  /**
   * Entry j of the log was added by event m, a sign-on at a node that had a record of the asking user
   * at that moment, and the sub that was signed is the sub of that record.
   */
  ghost predicate FromRecordAt(S: Suite, cfgs: seq<Settings>, events: seq<Event>, m: nat, j: nat)
    requires Order(S) > 0 && m < |events|
  {
    var e := events[m];
    && e.op.OpSignOn? && e.node < |cfgs|
    && |Before(S, cfgs, events, m).log| <= j < |Before(S, cfgs, events, m + 1).log|
    && e.op.signOn.username in Before(S, cfgs, events, m).nodes[e.node].users
    && Before(S, cfgs, events, m + 1).log[j].token.id.sub
       == Before(S, cfgs, events, m).nodes[e.node].users[e.op.signOn.username].sub
  }

  ghost predicate FromRecord(S: Suite, cfgs: seq<Settings>, events: seq<Event>, j: nat)
    requires Order(S) > 0
  {
    exists m :: 0 <= m < |events| && FromRecordAt(S, cfgs, events, m, j)
  }

  lemma LogGrows(S: Suite, cfgs: seq<Settings>, sys: System, e: Event)
    requires Order(S) > 0 && |sys.nodes| == |cfgs|
    ensures sys.log <= Advance(S, cfgs, sys, e).log
    ensures e.node >= |cfgs| ==> Advance(S, cfgs, sys, e) == sys
  {
    hide Step;
  }

  lemma PrefixesAgree(S: Suite, cfgs: seq<Settings>, events: seq<Event>)
    requires Order(S) > 0 && events != []
    ensures Before(S, cfgs, events, |events| - 1) == RunSystem(S, cfgs, Front(events))
    ensures Before(S, cfgs, events, |events|) == RunSystem(S, cfgs, events)
    ensures forall m :: 0 <= m < |events| ==> Before(S, cfgs, events, m) == Before(S, cfgs, Front(events), m)
  {
    hide RunSystem;
    assert events[..|events|] == events;
    forall m | 0 <= m < |events|
      ensures events[..m] == Front(events)[..m]
    {
    }
    assert Front(events)[..|events| - 1] == Front(events);
  }

  /** Every assertion was signed for a record that its node had at the time. */
  lemma {:induction false} AssertionFromRecord(S: Suite, cfgs: seq<Settings>, events: seq<Event>, j: nat)
    requires Order(S) > 0 && j < |RunSystem(S, cfgs, events).log| && RunSystem(S, cfgs, events).log[j].token.Assertion?
    ensures FromRecord(S, cfgs, events, j)
  {
    hide Advance, FromRecordAt;
    var f, e := Front(events), Last(events);
    var sys := RunSystem(S, cfgs, f);
    LogGrows(S, cfgs, sys, e);
    PrefixesAgree(S, cfgs, events);
    if j < |sys.log| {
      AssertionFromRecord(S, cfgs, f, j);
      var m :| 0 <= m < |f| && FromRecordAt(S, cfgs, f, m, j);
      RecordKept(S, cfgs, events, m, j);
    } else {
      NewAssertionFromRecord(S, cfgs, events, j);
    }
  }

  lemma RecordKept(S: Suite, cfgs: seq<Settings>, events: seq<Event>, m: nat, j: nat)
    requires Order(S) > 0 && m < |events| - 1 && FromRecordAt(S, cfgs, Front(events), m, j)
    ensures FromRecordAt(S, cfgs, events, m, j)
  {
    hide Before;
    PrefixesAgree(S, cfgs, events);
    assert Front(events)[m] == events[m];
  }

  lemma NewAssertionFromRecord(S: Suite, cfgs: seq<Settings>, events: seq<Event>, j: nat)
    requires Order(S) > 0 && events != []
    requires |RunSystem(S, cfgs, Front(events)).log| <= j < |RunSystem(S, cfgs, events).log|
    requires RunSystem(S, cfgs, events).log[j].token.Assertion?
    ensures FromRecordAt(S, cfgs, events, |events| - 1, j)
  {
    hide *;
    PrefixesAgree(S, cfgs, events);
    var sys, e := RunSystem(S, cfgs, Front(events)), Last(events);
    RunUnfolds(S, cfgs, events);
    LogGrows(S, cfgs, sys, e);
    NewEntry(S, cfgs, sys, e, j);
    NewAssertion(S, cfgs[e.node], sys.nodes[e.node], e.op, j - |sys.log| + |sys.nodes[e.node].uses|);
    RecordIs(S, cfgs, events, j);
  }

  lemma RunUnfolds(S: Suite, cfgs: seq<Settings>, events: seq<Event>)
    requires Order(S) > 0 && events != []
    ensures RunSystem(S, cfgs, events) == Advance(S, cfgs, RunSystem(S, cfgs, Front(events)), Last(events))
  {
    hide Advance;
  }

  lemma RecordIs(S: Suite, cfgs: seq<Settings>, events: seq<Event>, j: nat)
    requires Order(S) > 0 && events != [] && Last(events).op.OpSignOn? && Last(events).node < |cfgs|
    requires var sys, sys', e := Before(S, cfgs, events, |events| - 1), Before(S, cfgs, events, |events|), Last(events);
             && |sys.log| <= j < |sys'.log| && e.op.signOn.username in sys.nodes[e.node].users
             && sys'.log[j].token.id.sub == sys.nodes[e.node].users[e.op.signOn.username].sub
    ensures FromRecordAt(S, cfgs, events, |events| - 1, j)
  {
    hide Before;
    assert |events| - 1 + 1 == |events|;
  }

  /** A step that adds an assertion is a sign-on for a user on record. */
  lemma NewAssertion(S: Suite, cfg: Settings, st: State, op: Op, i: nat)
    requires Order(S) > 0 && |st.uses| <= i < |Step(S, cfg, st, op).uses|
             && Step(S, cfg, st, op).uses[i].token.Assertion?
    ensures op.OpSignOn? && op.signOn.username in st.users
    ensures Step(S, cfg, st, op).uses[i].token.id.sub == st.users[op.signOn.username].sub
  {
    hide SignOn, Sign, Register, Commit, InLimits, Message, CheckSign;
    match op {
      case OpRegister(user) => NoShares(st, user, "", Nonces(0, 0));
      case OpCommit(roundId, nonces) => NoShares(st, UserRecord("", "", Shamir.Share(0, 0), []), roundId, nonces);
      case OpSignOn(roundId, req, c, at) => SignOnAdds(S, cfg, st, roundId, req, c, at, i);
      case OpSign(ar, rr, req, ac, rc, at) => SignAdds(S, cfg, st, ar, rr, req, ac, rc, at, i);
    }
  }

  lemma NoShares(st: State, user: UserRecord, roundId: string, nonces: Nonces)
    ensures Register(st, user).uses == st.uses && Commit(st, roundId, nonces).uses == st.uses
  {
  }

  /**
   * Over whole runs, with refresh chains of any length: every access or refresh token a node signs
   * carries the sub, client, scope and key of an earlier signed assertion, whose sub is that of a user
   * record which the signing node had when it signed it.
   */
  lemma TokensDescendFromAssertions(S: Suite, cfgs: seq<Settings>, events: seq<Event>, k: nat)
    requires IsSuite(S) && Unforged(S, cfgs, events)
    requires k < |RunSystem(S, cfgs, events).log| && !RunSystem(S, cfgs, events).log[k].token.Assertion?
    ensures var log := RunSystem(S, cfgs, events).log;
            exists j :: 0 <= j < k && log[j].token.Assertion? && log[j].result.Ok? && log[j].token.id == log[k].token.id
                        && FromRecord(S, cfgs, events, j)
  {
    hide IsSuite, IsPrime, IsGroup, Unforged, IsMessageOf, InLimits, FromRecord;
    OrderIsPrime(S);
    RunHistorySound(S, cfgs, events);
    var log := RunSystem(S, cfgs, events).log;
    assert EntrySound(cfgs, log, k);
    var j :| 0 <= j < k && j < |log| && log[j].token.Assertion? && log[j].token.id == log[k].token.id
      && log[j].result.Ok?;
    AssertionFromRecord(S, cfgs, events, j);
  }

  // ---- How long a credential is spendable --------------------------------------------

  /** The last moment a credential signed at time at can be spent. */
  function SpendableUntil(t: Token, at: int): int
  {
    if t.Assertion? then at + CLOCK_SKEW + MAX_ASSERTION_LIFETIME else at + CLOCK_SKEW + MAX_REFRESH_LIFETIME
  }

  /** A share over a message of its token, made within the limits. */
  ghost predicate ShareSound(cfgs: seq<Settings>, u: Use)
  {
    IsMessageOf(cfgs, u) && InLimits(u)
  }

  lemma NewShareSound(S: Suite, cfgs: seq<Settings>, sys: System, e: Event, k: nat)
    requires Order(S) > 0 && e.node < |cfgs| == |sys.nodes|
    requires |sys.log| <= k < |Advance(S, cfgs, sys, e).log|
    ensures ShareSound(cfgs, Advance(S, cfgs, sys, e).log[k])
  {
    hide SignOn, Sign, CheckSign, Message, InLimits, Register, Commit;
    NewEntry(S, cfgs, sys, e, k);
    var st, cfg, i := sys.nodes[e.node], cfgs[e.node], k - |sys.log| + |sys.nodes[e.node].uses|;
    match e.op {
      case OpRegister(user) => NoShares(st, user, "", Nonces(0, 0));
      case OpCommit(roundId, nonces) => NoShares(st, UserRecord("", "", Shamir.Share(0, 0), []), roundId, nonces);
      case OpSignOn(roundId, req, c, at) => SignOnAdds(S, cfg, st, roundId, req, c, at, i);
      case OpSign(ar, rr, req, ac, rc, at) => SignAdds(S, cfg, st, ar, rr, req, ac, rc, at, i);
    }
  }

  /** Every share of every run is such a share, whatever anyone may have forged. */
  lemma {:induction false} RunSharesSound(S: Suite, cfgs: seq<Settings>, events: seq<Event>, k: nat)
    requires Order(S) > 0 && k < |RunSystem(S, cfgs, events).log|
    ensures ShareSound(cfgs, RunSystem(S, cfgs, events).log[k])
  {
    hide Advance, ShareSound;
    var sys, e := RunSystem(S, cfgs, Front(events)), Last(events);
    LogGrows(S, cfgs, sys, e);
    if k < |sys.log| {
      RunSharesSound(S, cfgs, Front(events), k);
    } else {
      NewShareSound(S, cfgs, sys, e, k);
    }
  }

  lemma AcceptedIsFull(S: Suite, cfg: Settings, text: string, typ: string, now: int)
    requires Order(S) > 0 && VerifyCredential(S, cfg, text, typ, now).Ok?
    ensures VerifyCredential(S, cfg, text, typ, now).value.id.jkt != ""
  {
    hide VerifyJwt;
  }

  /** A node that accepts a credential at time now does so before the end of the window of every signing of it. */
  lemma WindowOf(S: Suite, cfgs: seq<Settings>, u: Use, cfg: Settings, text: string, typ: string, now: int)
    requires IsSuite(S) && ShareSound(cfgs, u) && SignedBytes(text) == Some(u.msg)
    requires VerifyCredential(S, cfg, text, typ, now).Ok?
    ensures u.at > CLOCK_SKEW ==> now <= SpendableUntil(u.token, u.at)
    ensures VerifyCredential(S, cfg, text, typ, now).value.id == u.token.id
  {
    hide IsSuite, VerifyCredential, Message, SignedBytes;
    OrderIsPrime(S);
    var n :| 0 <= n < |cfgs| && u.msg == Message(u.token, cfgs[n].issuer, cfgs[n].keyId);
    CredentialIsSigned(S, cfg, text, typ, now, u.token, cfgs[n].issuer, cfgs[n].keyId);
    assert u.at > CLOCK_SKEW ==> u.token.exp > 0;
  }

  /**
   * A node accepts a credential only within 90 seconds of every signing of it as an assertion, or 60
   * seconds and 40 days of every signing of it as a refresh token, that took place later than 60 s on
   * the clock; it has then checked a POST proof for its own token endpoint by the key the credential
   * names; and, signatures being unforgeable, there was such a signing.
   */
  lemma SpendingWindow(S: Suite, cfgs: seq<Settings>, events: seq<Event>, e: Event)
    requires IsSuite(S) && e.node < |cfgs| && e.op.OpSign?
    requires CheckSign(S, cfgs[e.node], RunSystem(S, cfgs, events).nodes[e.node], e.op.accessRound, e.op.refreshRound,
                       e.op.sign, e.op.at).Ok?
    ensures var log := RunSystem(S, cfgs, events).log;
            forall k ::
              0 <= k < |log| && SignedBytes(Presented(e.op.sign)) == Some(log[k].msg) && log[k].at > CLOCK_SKEW ==>
              e.op.at <= SpendableUntil(log[k].token, log[k].at)
    ensures var c := CheckSign(S, cfgs[e.node], RunSystem(S, cfgs, events).nodes[e.node], e.op.accessRound,
                               e.op.refreshRound, e.op.sign, e.op.at).value;
            && c.id.jkt != ""
            && Dpop.VerifyProof(S, e.op.sign.dpopProof, "POST", TokenEndpoint(cfgs[e.node]), c.id.jkt, CLOCK_SKEW,
                                e.op.at)
               == Ok(c.id.jkt)
            && var log := RunSystem(S, cfgs, events).log;
            forall k :: 0 <= k < |log| && SignedBytes(Presented(e.op.sign)) == Some(log[k].msg) ==>
              log[k].token.id == c.id
    ensures NotForged(S, cfgs, RunSystem(S, cfgs, events), e) ==>
              SignedBefore(RunSystem(S, cfgs, events).log, Presented(e.op.sign))
  {
    hide IsSuite, CheckSign, VerifyPresented, VerifyCredential, VerifyJwt, Dpop.VerifyProof, ShareSound, SignedBytes,
      SignedBefore, SpendableUntil, RunSystem;
    OrderIsPrime(S);
    var sys, cfg, req, at := RunSystem(S, cfgs, events), cfgs[e.node], e.op.sign, e.op.at;
    var typ := if req.grant.AuthorizationCode? then "JWT" else "refresh+jwt";
    CheckedIsVerified(S, cfg, sys.nodes[e.node], e.op.accessRound, e.op.refreshRound, req, at);
    PresentedIsCredential(S, cfg, req, at);
    AcceptedIsFull(S, cfg, Presented(req), typ, at);
    var c := CheckSign(S, cfg, sys.nodes[e.node], e.op.accessRound, e.op.refreshRound, req, at).value;
    ProofKeyChecked(S, req.dpopProof, TokenEndpoint(cfg), c.id.jkt, at);
    forall k | 0 <= k < |sys.log| && SignedBytes(Presented(req)) == Some(sys.log[k].msg)
      ensures sys.log[k].at > CLOCK_SKEW ==> at <= SpendableUntil(sys.log[k].token, sys.log[k].at)
      ensures sys.log[k].token.id == c.id
    {
      RunSharesSound(S, cfgs, events, k);
      WindowOf(S, cfgs, sys.log[k], cfg, Presented(req), typ, at);
    }
  }

  /**
   * A credential that was signed for the thumbprint of a key is spent only with a proof that carries that
   * key and is signed by it, or else SHA-256 collides on the texts of two keys.
   */
  lemma SpentByItsKey(S: Suite, cfgs: seq<Settings>, events: seq<Event>, e: Event, k: nat, key: string)
      returns (x: string, header: Json, payload: Json)
    requires IsSuite(S) && e.node < |cfgs| && e.op.OpSign? && Order(S) > 0
    requires CheckSign(S, cfgs[e.node], RunSystem(S, cfgs, events).nodes[e.node], e.op.accessRound, e.op.refreshRound,
                       e.op.sign, e.op.at).Ok?
    requires k < |RunSystem(S, cfgs, events).log|
    requires var u := RunSystem(S, cfgs, events).log[k];
             SignedBytes(Presented(e.op.sign)) == Some(u.msg) && u.token.id.jkt == Dpop.Thumbprint(S, key)
    ensures Dpop.ProofSays(S, e.op.sign.dpopProof, header, payload, x)
    ensures x == key || Dpop.Sha256Coincide(S, Dpop.ThumbprintInput(x), Dpop.ThumbprintInput(key))
  {
    hide *;
    SpendingWindow(S, cfgs, events, e);
    x, header, payload :=
      Dpop.KeyBound(S, e.op.sign.dpopProof, "POST", TokenEndpoint(cfgs[e.node]), key, CLOCK_SKEW, e.op.at);
  }

  /** The thumbprint comparison is optional in the verifier, but a credential's thumbprint is never empty. */
  lemma ProofKeyChecked(S: Suite, proof: string, htu: string, jkt: string, at: int)
    requires IsSuite(S) && jkt != "" && Dpop.VerifyProof(S, proof, "POST", htu, jkt, CLOCK_SKEW, at).Ok?
    ensures Dpop.VerifyProof(S, proof, "POST", htu, jkt, CLOCK_SKEW, at) == Ok(jkt)
  {
    hide IsSuite, Dpop.VerifyProof;
    OrderIsPrime(S);
    Dpop.AcceptedProof(S, proof, "POST", htu, jkt, CLOCK_SKEW, at);
  }
}
