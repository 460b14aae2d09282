/**
 * Signing on after registration without the dealer, which shares the PRF key by place in the node list
 * while everything else goes by node id.
 */
module Registration {
  import opened Arith
  import opened Seqs
  import opened Bytes
  import opened Interpolation
  import opened Suites
  import opened Node
  import opened Gateway
  import opened Quorums
  import opened Deployment
  import opened Placement
  import opened Provisioning
  import opened SignOnFlow
  import Client
  import Shamir
  import Toprf
  import Utf8

  /** Node id keeps what registration left for it at its place in the list, counted from zero. */
  ghost predicate RecordedAt(S: Suite, st: State, id: int, a: Account, place: map<int, nat>)
    requires Order(S) > 0 && a.toprf != []
  {
    id in place && a.username in st.users
    && st.users[a.username] == RegisteredRecord(S, a.username, a.password, a.sub, a.toprf, place[id], id)
  }

  ghost predicate RegisteredAt(S: Suite, peers: map<int, Peer>, a: Account, place: map<int, nat>)
    requires Order(S) > 0 && a.toprf != []
  {
    forall id :: id in peers ==> RecordedAt(S, peers[id].st, id, a, place)
  }

  /** The x coordinates of the shares that the listed nodes hold. */
  function Places(ids: seq<int>, place: map<int, nat>): (xs: seq<int>)
    requires forall k :: 0 <= k < |ids| ==> ids[k] in place
    ensures |xs| == |ids| && forall k :: 0 <= k < |ids| ==> xs[k] == place[ids[k]] + 1
  {
    seq(|ids|, k requires 0 <= k < |ids| => place[ids[k]] + 1)
  }

  // ---- Ids proportional to places ----------------------------------------------------

  /** Every id is c times its place, counted from one, modulo the group order. */
  ghost predicate Proportional(S: Suite, peers: map<int, Peer>, place: map<int, nat>, c: int)
    requires Order(S) > 0
  {
    c % Order(S) != 0 && forall id :: id in peers ==> id in place && id % Order(S) == (c * (place[id] + 1)) % Order(S)
  }

  /** The same account, with its key shared over a polynomial stretched by c. */
  function Stretched(S: Suite, a: Account, c: int): (b: Account)
    requires Order(S) > 0
    ensures b.username == a.username && b.sub == a.sub && b.password == a.password && |b.toprf| == |a.toprf|
    ensures a.toprf != [] ==> b.toprf[0] == a.toprf[0]
  {
    a.(toprf := Scale(a.toprf, EuclidInverse(c, Order(S)), 1))
  }

  /** With proportional ids the account is enrolled after all, with the same key on another polynomial. */
  lemma ProportionalIsEnrolled(S: Suite, peers: map<int, Peer>, a: Account, place: map<int, nat>, c: int)
    requires IsSuite(S) && Order(S) > 0 && a.toprf != [] && RegisteredAt(S, peers, a, place)
             && Proportional(S, peers, place, c)
    ensures Enrolled(S, peers, Stretched(S, a, c))
  {
    hide *;
    OrderIsPrime(S);
    var b := Stretched(S, a, c);
    forall id | id in peers
      ensures EnrolledAt(S, peers[id].st, id, b)
    {
      ProportionalAt(S, peers, a, place, c, id);
    }
    EnrolledMeans(S, peers, b);
  }

  lemma EnrolledMeans(S: Suite, peers: map<int, Peer>, b: Account)
    requires Order(S) > 0 && b.toprf != [] && forall id :: id in peers ==> EnrolledAt(S, peers[id].st, id, b)
    ensures Enrolled(S, peers, b)
  {
    hide EnrolledAt;
  }

  lemma ProportionalAt(S: Suite, peers: map<int, Peer>, a: Account, place: map<int, nat>, c: int, id: int)
    requires IsSuite(S) && Order(S) > 0 && a.toprf != [] && RegisteredAt(S, peers, a, place)
             && Proportional(S, peers, place, c)
    requires id in peers
    ensures EnrolledAt(S, peers[id].st, id, Stretched(S, a, c))
  {
    hide IsSuite, IsPrime, Eval, Toprf.Prf, Toprf.DeriveServerKey, Utf8.Encode, EuclidInverse, Scale;
    OrderIsPrime(S);
    assert RecordedAt(S, peers[id].st, id, a, place);
    ProportionalShares(a.toprf, c, place[id] + 1, id, Order(S));
    ModSelf(Eval(a.toprf, place[id] + 1), Order(S));
  }

  // ---- When a registered user can sign on --------------------------------------------

  lemma RegisteredIsKept(S: Suite, peers: map<int, Peer>, a: Account, place: map<int, nat>)
    requires Order(S) > 0 && a.toprf != [] && RegisteredAt(S, peers, a, place)
    ensures Kept(S, peers, a)
  {
    hide Toprf.Prf, Toprf.DeriveServerKey, Utf8.Encode, Eval;
    forall id | id in peers
      ensures KeptAt(S, peers[id].st, id, a)
    {
      assert RecordedAt(S, peers[id].st, id, a, place);
    }
  }

  /** The first round changes no user. */
  lemma SceneUsers(S: Suite, t: Attempt, id: int)
    requires FirstRound(S, t).1.Ok? && Distinct(AskedNodes(t)) && id in SceneAfter(S, t).peers
    ensures id in t.peers && SceneAfter(S, t).peers[id].st.users == t.peers[id].st.users
  {
    hide CommitAll, Collect, OpenWith, AskedNodes;
    CommitAllOutcomes(S, t.peers, t.roundId, AskedNodes(t), t.draws);
    assert SameButRound(t.peers[id], SceneAfter(S, t).peers[id], t.roundId);
  }

  /** The shares of the participants are those that registration placed. */
  lemma SharesArePlaced(S: Suite, t: Attempt, place: map<int, nat>)
    requires IsSuite(S) && CanRelay(S, t) && Order(S) > 0 && t.a.toprf != [] && RegisteredAt(S, t.peers, t.a, place)
    requires FirstRound(S, t).1.Ok? && SceneOk(S, SceneAfter(S, t))
    ensures var s := SceneAfter(S, t);
            && (forall k :: 0 <= k < |s.round.participants| ==> s.round.participants[k] in place)
            && (forall k :: 0 <= k < |s.round.commitments| ==> HasAccount(s, k))
            && ToprfShares(s)
               == PlacedShares(s.round.participants, Places(s.round.participants, place), t.a.toprf, Order(S))
  {
    hide *;
    var s := SceneAfter(S, t);
    SharesOfScene(S, s);
    var ids := s.round.participants;
    IdsOfShares(s);
    AskedDistinct(S, t);
    forall k | 0 <= k < |ids|
      ensures ids[k] in place
      ensures ToprfShareAt(s, k) == Shamir.Share(ids[k], Eval(t.a.toprf, place[ids[k]] + 1) % Order(S))
    {
      ShareIsPlaced(S, t, place, k);
    }
    assert ToprfShares(s) == PlacedShares(ids, Places(ids, place), t.a.toprf, Order(S));
  }

  lemma AskedDistinct(S: Suite, t: Attempt)
    requires IsSuite(S) && CanRelay(S, t)
    ensures Distinct(AskedNodes(t))
  {
    hide IsSuite, AskedNodes, FirstRound;
  }

  lemma IdsOfShares(s: Scene)
    requires forall k :: 0 <= k < |s.round.commitments| ==> HasAccount(s, k)
    requires Shamir.Ids(ToprfShares(s)) == s.round.participants
    ensures |s.round.participants| == |s.round.commitments|
    ensures forall k :: 0 <= k < |s.round.commitments| ==> ToprfShareAt(s, k).id == s.round.participants[k]
  {
  }

  lemma ShareIsPlaced(S: Suite, t: Attempt, place: map<int, nat>, k: nat)
    requires Order(S) > 0 && t.a.toprf != [] && RegisteredAt(S, t.peers, t.a, place)
    requires FirstRound(S, t).1.Ok? && Distinct(AskedNodes(t))
    requires k < |SceneAfter(S, t).round.commitments| && HasAccount(SceneAfter(S, t), k)
    ensures var id := SceneAfter(S, t).round.commitments[k].nodeId;
            id in place
            && ToprfShareAt(SceneAfter(S, t), k) == Shamir.Share(id, Eval(t.a.toprf, place[id] + 1) % Order(S))
  {
    hide FirstRound, AskedNodes, Distinct, Toprf.Prf, Toprf.DeriveServerKey, Utf8.Encode, Eval;
    var id := SceneAfter(S, t).round.commitments[k].nodeId;
    SceneUsers(S, t, id);
    assert RecordedAt(S, t.peers[id].st, id, t.a, place);
  }

  /**
   * Registered by place and signing on with the registered password: it succeeds exactly when the ids of
   * the participants recover the key from the shares at their places, or the password hashes to the zero
   * point, or the truncated SHA-512 collides. When the moments of the participants vanish it always does.
   */
  lemma RegisteredSignOn(S: Suite, t: Attempt, place: map<int, nat>)
      returns (s: Scene, ids: seq<int>, xs: seq<int>)
    requires IsSuite(S) && CanRelay(S, t) && t.keyId == Client.KEY_ID && t.o.password == t.a.password
    requires RegisteredFor(S, t, place)
    ensures Order(S) > 0 && S.ristretto.order > 0 && t.a.toprf != []
    ensures SceneOk(S, s) && FirstRound(S, t).1.Ok? && s == SceneAfter(S, t)
    ensures ids == s.round.participants && ValidIds(ids, Order(S)) && |xs| == |ids|
    ensures forall k :: 0 <= k < |ids| ==> ids[k] in place && xs[k] == place[ids[k]] + 1
    ensures Finished(S, t).Ok? <==> Recovers(ids, xs, t.a.toprf, Order(S)) || Lucky(S, s)
    ensures MomentsVanish(ids, xs, |t.a.toprf|, Order(S)) ==> Finished(S, t).Ok?
  {
    hide *;
    OrderIsPrime(S);
    RegisteredMeans(S, t, place);
    s := SignOnDecided(S, t);
    SceneNames(S, t);
    SharesOfScene(S, s);
    SharesArePlaced(S, t, place);
    ids, xs := s.round.participants, Places(s.round.participants, place);
    RestoredByPlace(S, s, ids, xs);
    LuckyMeans(S, s);
    if MomentsVanish(ids, xs, |t.a.toprf|, Order(S)) {
      VanishingRecovers(ids, xs, t.a.toprf, Order(S));
    }
  }

  /** The nodes behind the gateway keep what registration left at their places. */
  ghost predicate RegisteredFor(S: Suite, t: Attempt, place: map<int, nat>)
    requires IsSuite(S)
  {
    OrderIsPrime(S);
    t.a.toprf != [] && RegisteredAt(S, t.peers, t.a, place)
  }

  lemma RegisteredMeans(S: Suite, t: Attempt, place: map<int, nat>)
    requires IsSuite(S)
    ensures Order(S) > 0 && (RegisteredFor(S, t, place) <==> t.a.toprf != [] && RegisteredAt(S, t.peers, t.a, place))
  {
    hide RegisteredAt;
    OrderIsPrime(S);
  }

  /** The password hashes to the zero point, or the truncated SHA-512 collides where it matters. */
  ghost predicate Lucky(S: Suite, s: Scene)
    requires IsSuite(S) && SceneOk(S, s)
  {
    || Toprf.HashToGroup(S, Utf8.Encode(s.a.password)) == S.ristretto.zero
    || Toprf.Coincide(S, TypedInput(S, s), RegisteredInput(S, s))
    || (forall k :: 0 <= k < |s.round.commitments| ==> KeysCoincide(S, s, k, TypedPrf(S, s), RegisteredPrf(S, s)))
  }

  lemma LuckyMeans(S: Suite, s: Scene)
    requires IsSuite(S) && SceneOk(S, s)
    ensures s.a.toprf != []
    ensures Lucky(S, s)
            <==> || Toprf.HashToGroup(S, Utf8.Encode(s.a.password)) == S.ristretto.zero
                 || Toprf.Coincide(S, TypedInput(S, s), RegisteredInput(S, s))
                 || (forall k :: 0 <= k < |s.round.commitments| ==>
                       KeysCoincide(S, s, k, TypedPrf(S, s), RegisteredPrf(S, s)))
  {
    hide IsSuite, SceneOk, TypedInput, RegisteredInput, TypedPrf, RegisteredPrf, KeysCoincide, Toprf.Coincide,
      Toprf.HashToGroup;
    SceneDistinct(S, s);
  }

  lemma RestoredByPlace(S: Suite, s: Scene, ids: seq<int>, xs: seq<int>)
    requires IsSuite(S) && SceneOk(S, s) && Order(S) > 0 && s.a.toprf != [] && s.o.password == s.a.password
    requires |xs| == |ids| && ids == s.round.participants
    requires forall k :: 0 <= k < |s.round.commitments| ==> HasAccount(s, k)
    requires ToprfShares(s) == PlacedShares(ids, xs, s.a.toprf, Order(S))
    ensures Restored(S, s)
            <==> Recovers(ids, xs, s.a.toprf, Order(S))
                 || Toprf.HashToGroup(S, Utf8.Encode(s.a.password)) == S.ristretto.zero
  {
    hide IsSuite, SceneOk, SharedKey, ToprfShares, PlacedShares, Shamir.Weighted, Toprf.HashToGroup;
    SharesOfScene(S, s);
  }

  /** With proportional ids the registered password signs on with every quorum that the threshold allows. */
  lemma ProportionalSignOn(S: Suite, t: Attempt, place: map<int, nat>, c: int)
    requires IsSuite(S) && CanRelay(S, t) && t.keyId == Client.KEY_ID && t.o.password == t.a.password
    requires RegisteredFor(S, t, place) && |t.a.toprf| <= t.threshold
    requires ProportionalFor(S, t, place, c)
    ensures Order(S) > 0 && S.ristretto.order > 0 && Finished(S, t).Ok?
  {
    hide *;
    OrderIsPrime(S);
    RegisteredMeans(S, t, place);
    ProportionalMeans(S, t, place, c);
    var b := Stretched(S, t.a, c);
    var u := t.(a := b);
    ProportionalIsEnrolled(S, t.peers, t.a, place, c);
    SameAttempt(S, t, b);
    var s, _ := SignOnExact(S, u);
    SceneNames(S, u);
    SharedMeans(S, u);
    SceneEnrolled(S, u);
    RegisteredPasswordMatches(S, s);
  }

  ghost predicate ProportionalFor(S: Suite, t: Attempt, place: map<int, nat>, c: int)
    requires IsSuite(S)
  {
    OrderIsPrime(S);
    Proportional(S, t.peers, place, c)
  }

  lemma ProportionalMeans(S: Suite, t: Attempt, place: map<int, nat>, c: int)
    requires IsSuite(S)
    ensures Order(S) > 0 && (ProportionalFor(S, t, place, c) <==> Proportional(S, t.peers, place, c))
  {
    hide Proportional;
    OrderIsPrime(S);
  }

  lemma SharedMeans(S: Suite, t: Attempt)
    requires IsSuite(S)
    ensures Order(S) > 0
    ensures SharedById(S, t) <==> t.a.toprf != [] && Enrolled(S, t.peers, t.a) && |t.a.toprf| <= t.threshold
  {
    hide Enrolled;
    OrderIsPrime(S);
  }

  /** Nothing in a sign-on looks at the polynomial: only its constant term is behind the stored keys. */
  lemma SameAttempt(S: Suite, t: Attempt, b: Account)
    requires IsSuite(S) && CanRelay(S, t) && t.a.toprf != [] && b.toprf != [] && b.toprf[0] == t.a.toprf[0]
    requires b.username == t.a.username && b.sub == t.a.sub && b.password == t.a.password
    ensures Order(S) > 0 && S.ristretto.order > 0
    ensures CanRelay(S, t.(a := b)) && Finished(S, t.(a := b)) == Finished(S, t)
  {
    hide IsSuite, Finished, FirstRound, AskedNodes, Deployed, ClocksAgree, KeptAt;
    OrderIsPrime(S);
    SameOutcome(S, t, b);
    forall id | id in t.peers
      ensures KeptAt(S, t.peers[id].st, id, b)
    {
      SameKept(S, t.peers[id].st, id, t.a, b);
    }
  }

  lemma SameOutcome(S: Suite, t: Attempt, b: Account)
    requires Order(S) > 0 && S.ristretto.order > 0
    ensures AskedNodes(t.(a := b)) == AskedNodes(t) && FirstRound(S, t.(a := b)) == FirstRound(S, t)
    ensures Finished(S, t.(a := b)) == Finished(S, t)
  {
    hide RelaySignOn, CommitAll, Collect, Client.SignedOn, Client.Body;
  }

  lemma SameKept(S: Suite, st: State, id: int, a: Account, b: Account)
    requires a.toprf != [] && b.toprf != [] && b.toprf[0] == a.toprf[0] && KeptAt(S, st, id, a)
    requires b.username == a.username && b.sub == a.sub && b.password == a.password
    ensures KeptAt(S, st, id, b)
  {
    hide Toprf.Prf, Toprf.DeriveServerKey, Utf8.Encode;
  }

  // ---- The list turned round ---------------------------------------------------------

  /**
   * Nodes 2 and 1, registered in this order with threshold 2: the registered password signs on exactly
   * when the second coefficient is zero or the group order is three, or by luck.
   */
  lemma SwappedSignOn(S: Suite, t: Attempt) returns (s: Scene)
    requires IsSuite(S) && CanRelay(S, t) && t.keyId == Client.KEY_ID && t.o.password == t.a.password
    requires RegisteredFor(S, t, map[2 := 0, 1 := 1]) && |t.a.toprf| == 2 && t.threshold == 2
    ensures Order(S) > 0 && S.ristretto.order > 0
    ensures SceneOk(S, s) && FirstRound(S, t).1.Ok? && s == SceneAfter(S, t)
    ensures Finished(S, t).Ok? <==> t.a.toprf[1] % Order(S) == 0 || Order(S) == 3 || Lucky(S, s)
  {
    hide *;
    OrderIsPrime(S);
    var ids, xs;
    s, ids, xs := RegisteredSignOn(S, t, map[2 := 0, 1 := 1]);
    InOrder(S, t);
    OneAndTwo(ids, Order(S));
    assert xs == [2, 1];
    PairRecovers(1, 2, 2, 1, t.a.toprf, Order(S));
    FourIsOne(ids, Order(S));
  }

  /** What is left at the two nodes is of this kind, with 1 and 1 as coefficients. */
  lemma SwappedAreRegistered(S: Suite, two: Peer, one: Peer, username: string, password: string, sub: string)
    requires Order(S) > 0
    requires two.st == Register(INITIAL, RegisteredRecord(S, username, password, sub, [1, 1], 0, 2))
    requires one.st == Register(INITIAL, RegisteredRecord(S, username, password, sub, [1, 1], 1, 1))
    ensures RegisteredAt(S, map[2 := two, 1 := one], Account(username, sub, password, [1, 1]), map[2 := 0, 1 := 1])
  {
    hide Toprf.Prf, Toprf.DeriveServerKey, Utf8.Encode, Eval;
  }

  lemma InOrder(S: Suite, t: Attempt)
    requires FirstRound(S, t).1.Ok?
    ensures Ascending(SceneAfter(S, t).round.participants) && |SceneAfter(S, t).round.participants| >= t.threshold
  {
    var settled := CommitAll(S, t.peers, t.roundId, AskedNodes(t), t.draws).1;
    hide CommitAll, Collect, AskedNodes;
    CollectExact(settled, t.o.participants.Some?, t.threshold);
    CollectSmall(settled, t.o.participants.Some?, t.threshold);
  }

  lemma OneAndTwo(ids: seq<int>, p: int)
    requires Ascending(ids) && ValidIds(ids, p) && |ids| >= 2
    requires forall k :: 0 <= k < |ids| ==> ids[k] in map[2 := 0, 1 := 1]
    ensures ids == [1, 2]
  {
    forall i, j | 0 <= i < j < |ids|
      ensures ids[i] == 1 && ids[j] == 2
    {
      assert ids[i] <= ids[j] && ids[i] != ids[j];
    }
    assert ids[0] == 1 && ids[1] == ids[|ids| - 1] == 2 && ids[|ids| - 2] == 1;
  }

  lemma FourIsOne(ids: seq<int>, p: int)
    requires IsPrime(p) && ids == [1, 2] && ValidIds(ids, p)
    ensures (2 * 2) % p == (1 * 1) % p <==> p == 3
  {
    assert ids[1] == 2;
    if p == 4 {
      assert Divides(2, p);
      assert false;
    } else if p > 4 {
      ModUnique(4, 0, 4, p);
      ModUnique(1, 0, 1, p);
    }
  }
}
