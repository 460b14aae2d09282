/**
 * From the dealer to running nodes: every file the dealer writes is accepted by the loader and restores
 * exactly what was dealt, and nodes started from those files are a deployment with every user enrolled.
 */
module Provisioning {
  import opened Arith
  import opened Seqs
  import opened Bytes
  import opened Interpolation
  import opened Json
  import opened CanonicalJson
  import opened Suites
  import opened Dealer
  import opened NodeConfig
  import opened Node
  import opened Gateway
  import opened Federation
  import opened Deployment
  import Base64Url
  import Frost
  import Shamir
  import Toprf
  import Hex
  import Utf8

  /** The key id of a node that is started without one, which is how every node is started. */
  const DEFAULT_KEY_ID := "pasta-group-key-1"

  // ---- The files as JSON -------------------------------------------------------------

  function ShareJson(id: int, value: string): Json
  {
    Obj([Member("id", Num(id)), Member("value", Str(value))])
  }

  function RecordJson(r: NodeUserRecord): Json
  {
    Obj([Member("username", Str(r.username)), Member("sub", Str(r.sub)),
         Member("toprfKeyShare", ShareJson(r.shareId, r.shareValue)), Member("h_i", Str(r.serverKey))])
  }

  function RecordsJson(rs: seq<NodeUserRecord>): (r: seq<Json>)
    ensures |r| == |rs| && forall i :: 0 <= i < |r| ==> r[i] == RecordJson(rs[i])
  {
    seq(|rs|, i requires 0 <= i < |rs| => RecordJson(rs[i]))
  }

  function FileJson(f: NodeFile): Json
  {
    Obj([Member("version", Num(f.version)), Member("nodeId", Num(f.nodeId)), Member("threshold", Num(f.threshold)),
         Member("total", Num(f.total)), Member("groupPublicKey", Str(f.groupPublicKey)),
         Member("secretKeyShare", Str(f.secretKeyShare)), Member("users", Arr(RecordsJson(f.users)))])
  }

  lemma RecordFields(r: NodeUserRecord)
    ensures WellFormed(RecordJson(r)) && RecordJson(r).Obj?
    ensures Field(RecordJson(r), "username") == Some(Str(r.username))
    ensures Field(RecordJson(r), "sub") == Some(Str(r.sub))
    ensures Field(RecordJson(r), "toprfKeyShare") == Some(ShareJson(r.shareId, r.shareValue))
    ensures Field(RecordJson(r), "h_i") == Some(Str(r.serverKey))
    ensures Field(ShareJson(r.shareId, r.shareValue), "id") == Some(Num(r.shareId))
    ensures Field(ShareJson(r.shareId, r.shareValue), "value") == Some(Str(r.shareValue))
  {
    var s := ShareJson(r.shareId, r.shareValue).members;
    assert DistinctKeys(s);
    FindAt(s, 0);
    FindAt(s, 1);
    assert WellFormed(ShareJson(r.shareId, r.shareValue));
    hide ShareJson;
    var ms := RecordJson(r).members;
    assert DistinctKeys(ms);
    FindAt(ms, 0);
    FindAt(ms, 1);
    FindAt(ms, 2);
    FindAt(ms, 3);
  }

  lemma FileFields(f: NodeFile)
    ensures WellFormed(FileJson(f)) && FileJson(f).Obj?
    ensures Field(FileJson(f), "version") == Some(Num(f.version))
    ensures Field(FileJson(f), "nodeId") == Some(Num(f.nodeId))
    ensures Field(FileJson(f), "threshold") == Some(Num(f.threshold))
    ensures Field(FileJson(f), "total") == Some(Num(f.total))
    ensures Field(FileJson(f), "groupPublicKey") == Some(Str(f.groupPublicKey))
    ensures Field(FileJson(f), "secretKeyShare") == Some(Str(f.secretKeyShare))
    ensures Field(FileJson(f), "users") == Some(Arr(RecordsJson(f.users)))
  {
    var ms := FileJson(f).members;
    UsersWellFormed(f.users);
    hide RecordsJson;
    FileKeysDistinct(f);
    FindAt(ms, 0);
    FindAt(ms, 1);
    FindAt(ms, 2);
    FindAt(ms, 3);
    FindAt(ms, 4);
    FindAt(ms, 5);
    FindAt(ms, 6);
    forall i | 0 <= i < |ms|
      ensures WellFormed(ms[i].value)
    {
      assert i < 6 ==> ms[i].value.Num? || ms[i].value.Str?;
    }
  }

  lemma FileKeysDistinct(f: NodeFile)
    ensures DistinctKeys(FileJson(f).members)
  {
    hide RecordsJson;
  }

  lemma UsersWellFormed(rs: seq<NodeUserRecord>)
    ensures WellFormed(Arr(RecordsJson(rs)))
  {
    var items := RecordsJson(rs);
    hide RecordJson;
    forall i | 0 <= i < |items|
      ensures WellFormed(items[i])
    {
      RecordFields(rs[i]);
    }
  }

  // ---- Reading hexadecimal fields ----------------------------------------------------

  lemma ScalarReads(S: Suite, n: int)
    requires IsSuite(S)
    ensures ScalarField(Some(Str(HexScalar(n, Order(S))))) == Ok(n % Order(S))
  {
    hide IsSuite, IsPrime, IsGroup, Hex.NodeScalarToHex, Hex.HexNumber, Pow;
    OrderIsPrime(S);
    Hex.ScalarRoundTrip(n % Order(S));
  }

  lemma BytesRead(b: Bytes)
    requires b != []
    ensures BytesField(Some(Str(Hex.HexOf(b))), |b|) == Ok(b)
  {
    Hex.HexOfSpells(b, b);
    hide Hex.HexOf;
    assert PairBytes(Hex.HexOf(b)) == b;
  }

  // ---- The loader on the dealer's files ----------------------------------------------

  /** What the loader makes of the record of user j at node id. */
  function DealtUser(S: Suite, o: Options, e: Entropy, id: int, j: nat): UserConfig
    requires Order(S) > 0 && j < |o.users|
  {
    var u, cs := o.users[j], ToprfPolynomial(o, e, j);
    UserConfig(u.username, u.sub, Shamir.Share(id, Eval(cs, id) % Order(S)),
               Toprf.DeriveServerKey(S, Toprf.Prf(S, Utf8.Encode(u.password), cs[0]), id))
  }

  lemma RecordAccepted(S: Suite, o: Options, e: Entropy, id: int, j: nat)
    requires IsSuite(S) && CheckOptions(o).None? && j < |o.users|
    ensures Order(S) > 0
    ensures ParseUser(RecordJson(RecordFor(S, o, e, id, j)), id) == Ok(DealtUser(S, o, e, id, j))
  {
    hide IsSuite, IsPrime, IsGroup, Eval, RecordJson, ShareJson, Find, HexScalar, Hex.HexOf, BytesField, ScalarField,
      Toprf.DeriveServerKey, Toprf.Prf, Utf8.Encode, ToprfPolynomial, CheckUsers;
    OrderIsPrime(S);
    CheckUsersExact(o.users);
    var r, cs := RecordFor(S, o, e, id, j), ToprfPolynomial(o, e, j);
    var key := Toprf.DeriveServerKey(S, Toprf.Prf(S, Utf8.Encode(o.users[j].password), cs[0]), id);
    RecordFields(r);
    ScalarReads(S, Eval(cs, id));
    Toprf.ServerKeyLength(S, Toprf.Prf(S, Utf8.Encode(o.users[j].password), cs[0]), id);
    BytesRead(key);
    assert ShareJson(r.shareId, r.shareValue).Obj? by { ShareIsObject(r.shareId, r.shareValue); }
  }

  lemma ShareIsObject(id: int, value: string)
    ensures ShareJson(id, value).Obj?
  {
  }

  function DealtUsers(S: Suite, o: Options, e: Entropy, id: int, n: nat): (r: seq<UserConfig>)
    requires Order(S) > 0 && n <= |o.users|
    ensures |r| == n
  {
    if n == 0 then [] else DealtUsers(S, o, e, id, n - 1) + [DealtUser(S, o, e, id, n - 1)]
  }

  lemma {:induction false} DealtUsersAt(S: Suite, o: Options, e: Entropy, id: int, n: nat, j: nat)
    requires Order(S) > 0 && j < n <= |o.users|
    ensures DealtUsers(S, o, e, id, n)[j] == DealtUser(S, o, e, id, j)
  {
    hide DealtUser;
    if j < n - 1 {
      DealtUsersAt(S, o, e, id, n - 1, j);
    }
  }

  lemma {:induction false} RecordsAccepted(S: Suite, o: Options, e: Entropy, id: int, n: nat)
    requires IsSuite(S) && CheckOptions(o).None? && n <= |o.users|
    ensures ParseUsers(RecordsJson(RecordsFor(S, o, e, id, n)), id) == Ok(DealtUsers(S, o, e, id, n))
  {
    hide IsSuite, RecordFor, RecordJson, ParseUser, DealtUser, CheckOptions;
    OrderIsPrime(S);
    if n > 0 {
      RecordsAccepted(S, o, e, id, n - 1);
      RecordAccepted(S, o, e, id, n - 1);
      var raws := RecordsJson(RecordsFor(S, o, e, id, n));
      assert Front(raws) == RecordsJson(RecordsFor(S, o, e, id, n - 1));
    }
  }

  lemma NamesDistinct(S: Suite, o: Options, e: Entropy, id: int)
    requires IsSuite(S) && CheckOptions(o).None?
    ensures Distinct(NamesOf(DealtUsers(S, o, e, id, |o.users|)))
  {
    hide IsSuite, CheckUsers, DealtUsers, Toprf.DeriveServerKey, Toprf.Prf, Utf8.Encode, Eval;
    OrderIsPrime(S);
    CheckUsersExact(o.users);
    var users := DealtUsers(S, o, e, id, |o.users|);
    forall i | 0 <= i < |users|
      ensures users[i].username == o.users[i].username
    {
      DealtUsersAt(S, o, e, id, |o.users|, i);
    }
    assert NamesOf(users) == Usernames(o.users);
  }

  /** What the loader must restore from the file of node id. */
  function DealtConfig(S: Suite, o: Options, e: Entropy, id: int): Config
    requires Order(S) > 0
  {
    Config(CONFIG_VERSION, id, o.threshold, o.total, S.ed.mul(e.masterSecret, S.ed.base),
           Eval(KeyPolynomial(o, e), id) % Order(S), DealtUsers(S, o, e, id, |o.users|))
  }

  lemma PublicKeyLength(S: Suite, n: int)
    requires IsSuite(S)
    ensures |S.ed.mul(n, S.ed.base)| == 32
  {
    OrderIsPrime(S);
    MulValid(S.ed, n, S.ed.base);
    assert UnitLaw(S.ed, S.ed.mul(n, S.ed.base));
  }

  lemma KeysAccepted(S: Suite, o: Options, e: Entropy, id: int)
    requires IsSuite(S) && CheckOptions(o).None?
    ensures KeysOf(FileJson(FileOf(S, o, e, id)), id, o.threshold, o.total) == Ok(DealtConfig(S, o, e, id))
  {
    hide IsSuite, Eval, FileJson, Find, HexScalar, Hex.HexOf, BytesField, ScalarField, RecordsFor, RecordsJson,
      ParseUsers, DealtUsers, KeyPolynomial, CheckOptions, Distinct, NamesOf;
    OrderIsPrime(S);
    FileFields(FileOf(S, o, e, id));
    PublicKeyLength(S, e.masterSecret);
    BytesRead(S.ed.mul(e.masterSecret, S.ed.base));
    ScalarReads(S, Eval(KeyPolynomial(o, e), id));
    RecordsAccepted(S, o, e, id, |o.users|);
    NamesDistinct(S, o, e, id);
  }

  /** Every file the dealer writes is accepted by the loader and restores exactly what was dealt. */
  lemma FileAccepted(S: Suite, o: Options, e: Entropy, id: int)
    requires IsSuite(S) && CheckOptions(o).None? && 1 <= id <= o.total
    ensures Order(S) > 0
    ensures Loaded(Text(FileJson(FileOf(S, o, e, id)))) == Ok(DealtConfig(S, o, e, id))
  {
    hide IsSuite, IsPrime, IsGroup, Eval, FileJson, Find, Hex.HexOf, HexScalar, KeysOf, RecordsFor, DealtConfig, Parse,
      Text, CheckUsers;
    OrderIsPrime(S);
    var f := FileOf(S, o, e, id);
    FileFields(f);
    ParseUndoesText(FileJson(f));
    KeysAccepted(S, o, e, id);
  }

  // ---- Starting nodes ----------------------------------------------------------------

  function StartSettings(c: Config, issuer: string): Settings
  {
    Settings(c.nodeId, c.secretKeyShare, c.groupPublicKey, Base64Url.StripEnd(issuer, '/'), DEFAULT_KEY_ID)
  }

  function RecordOfUser(u: UserConfig): UserRecord
  {
    UserRecord(u.sub, u.username, u.toprfKeyShare, u.serverKey)
  }

  /** The state after registering the users of a file. */
  function StartState(users: seq<UserConfig>): State
  {
    if users == [] then INITIAL else Register(StartState(Front(users)), RecordOfUser(Last(users)))
  }

  /** Start-up: a node with the file's values and all its users registered. */
  method StartNode(S: Suite, c: Config, issuer: string) returns (node: IdentityNode)
    requires Order(S) > 0
    ensures fresh(node) && node.Valid() && node.suite == S
    ensures node.settings == StartSettings(c, issuer) && node.history == StartState(c.users)
  {
    node := new IdentityNode(S, c.nodeId, c.secretKeyShare, c.groupPublicKey, issuer, DEFAULT_KEY_ID);
    for i := 0 to |c.users|
      invariant fresh(node) && node.Valid() && node.suite == S && node.settings == StartSettings(c, issuer)
      invariant node.history == StartState(c.users[..i])
    {
      PrefixStep(c.users, i);
      node.RegisterUser(c.users[i].username, c.users[i].sub, c.users[i].toprfKeyShare, c.users[i].serverKey);
    }
    assert c.users[..|c.users|] == c.users;
  }

  lemma {:induction false} StartedUser(users: seq<UserConfig>, j: nat)
    requires j < |users| && Distinct(NamesOf(users))
    ensures var st := StartState(users);
            users[j].username in st.users && st.users[users[j].username] == RecordOfUser(users[j])
  {
    if j < |users| - 1 {
      assert NamesOf(Front(users)) == Front(NamesOf(users));
      StartedUser(Front(users), j);
      assert NamesOf(users)[j] != NamesOf(users)[|users| - 1];
    }
  }

  function AccountOf(o: Options, e: Entropy, j: nat): Account
    requires j < |o.users|
  {
    Account(o.users[j].username, o.users[j].sub, o.users[j].password, ToprfPolynomial(o, e, j))
  }

  /** These nodes were started from the files of one run of the dealer. */
  ghost predicate StartedFrom(S: Suite, o: Options, e: Entropy, issuer: string, peers: map<int, Peer>)
    requires Order(S) > 0
  {
    forall id :: id in peers ==> 1 <= id <= o.total && StartedAs(S, o, e, issuer, peers[id], id)
  }

  ghost predicate StartedAs(S: Suite, o: Options, e: Entropy, issuer: string, p: Peer, id: int)
    requires Order(S) > 0
  {
    p == Peer(StartSettings(DealtConfig(S, o, e, id), issuer), StartState(DealtConfig(S, o, e, id).users))
  }

  /** A node that is started from a file of the dealing is one of those the theorems are about. */
  lemma StartedFromFile(S: Suite, o: Options, e: Entropy, issuer: string, id: int, c: Config)
    requires IsSuite(S) && CheckOptions(o).None? && 1 <= id <= o.total && Order(S) > 0
    requires Loaded(Text(FileJson(FileOf(S, o, e, id)))) == Ok(c)
    ensures StartedAs(S, o, e, issuer, Peer(StartSettings(c, issuer), StartState(c.users)), id)
  {
    hide IsSuite, FileOf, FileJson, Text, Loaded, DealtConfig, StartState, CheckOptions;
    FileAccepted(S, o, e, id);
  }

  lemma StartedIsDeployed(S: Suite, o: Options, e: Entropy, issuer: string, p: Peer, id: int)
    requires IsSuite(S) && 1 <= id <= o.total < Order(S) && StartedAs(S, o, e, issuer, p, id)
    ensures DeployedNode(S, p.cfg, id, KeyPolynomial(o, e), Base64Url.StripEnd(issuer, '/'), DEFAULT_KEY_ID)
  {
    hide IsSuite, Eval, StartState, DealtUsers;
    OrderIsPrime(S);
    ModSelf(Eval(KeyPolynomial(o, e), id), Order(S));
  }

  lemma StartedIsEnrolled(S: Suite, o: Options, e: Entropy, issuer: string, p: Peer, id: int, j: nat)
    requires IsSuite(S) && CheckOptions(o).None? && j < |o.users| && StartedAs(S, o, e, issuer, p, id)
    ensures EnrolledAt(S, p.st, id, AccountOf(o, e, j))
  {
    hide IsSuite, Eval, StartState, DealtUsers, CheckOptions, Distinct, NamesOf, Toprf.DeriveServerKey, Toprf.Prf,
      Utf8.Encode, ToprfPolynomial;
    OrderIsPrime(S);
    NamesDistinct(S, o, e, id);
    StartedUser(DealtUsers(S, o, e, id, |o.users|), j);
    DealtUsersAt(S, o, e, id, |o.users|, j);
    ModSelf(Eval(ToprfPolynomial(o, e, j), id), Order(S));
  }

  /**
   * Nodes started from the dealer's files are a deployment in which every user is enrolled, with both
   * thresholds those of the dealer: what the sign-on and token theorems ask for.
   */
  lemma DealtIsDeployed(S: Suite, o: Options, e: Entropy, issuer: string, peers: map<int, Peer>)
    requires IsSuite(S) && CheckOptions(o).None? && o.total < Order(S)
    requires StartedFrom(S, o, e, issuer, peers)
    ensures Deployed(S, peers, KeyPolynomial(o, e), Base64Url.StripEnd(issuer, '/'), DEFAULT_KEY_ID)
    ensures forall j :: 0 <= j < |o.users| ==>
              Enrolled(S, peers, AccountOf(o, e, j)) && Kept(S, peers, AccountOf(o, e, j))
    ensures |KeyPolynomial(o, e)| == o.threshold && forall j :: 0 <= j < |o.users| ==>
              |AccountOf(o, e, j).toprf| == o.threshold
    ensures forall j :: 0 <= j < |o.users| ==> AccountOf(o, e, j).sub != ""
  {
    hide IsSuite, StartedAs, DeployedNode, Enrolled, Kept, CheckUsers;
    OrderIsPrime(S);
    CheckUsersExact(o.users);
    forall id | id in peers
      ensures DeployedNode(S, peers[id].cfg, id, KeyPolynomial(o, e), Base64Url.StripEnd(issuer, '/'), DEFAULT_KEY_ID)
    {
      StartedIsDeployed(S, o, e, issuer, peers[id], id);
    }
    forall j | 0 <= j < |o.users|
      ensures Enrolled(S, peers, AccountOf(o, e, j)) && Kept(S, peers, AccountOf(o, e, j))
    {
      UserIsEnrolled(S, o, e, issuer, peers, j);
    }
  }

  lemma UserIsEnrolled(S: Suite, o: Options, e: Entropy, issuer: string, peers: map<int, Peer>, j: nat)
    requires IsSuite(S) && CheckOptions(o).None? && StartedFrom(S, o, e, issuer, peers) && j < |o.users|
    ensures Order(S) > 0 && AccountOf(o, e, j).toprf != []
    ensures Enrolled(S, peers, AccountOf(o, e, j)) && Kept(S, peers, AccountOf(o, e, j))
  {
    hide IsSuite, StartedAs, EnrolledAt, Kept, CheckUsers;
    OrderIsPrime(S);
    forall id | id in peers
      ensures EnrolledAt(S, peers[id].st, id, AccountOf(o, e, j))
    {
      StartedIsEnrolled(S, o, e, issuer, peers[id], id, j);
    }
    EnrolledIsKept(S, peers, AccountOf(o, e, j));
  }

  // ---- Registration without a dealer -------------------------------------------------

  /** What registration leaves at the node in position i. */
  function RegisteredRecord(S: Suite, username: string, password: string, sub: string, cs: seq<int>, i: nat,
                            nodeId: int): UserRecord
    requires Order(S) > 0 && cs != []
  {
    UserRecord(sub, username, Shamir.Share(i + 1, Eval(cs, i + 1) % Order(S)),
               Toprf.DeriveServerKey(S, Toprf.Prf(S, Utf8.Encode(password), cs[0]), nodeId))
  }

  /** The last place before n that x has in the list. */
  ghost function LastPlace<A>(s: seq<A>, n: nat, x: A): (i: nat)
    requires n <= |s| && x in s[..n]
    ensures i < n && s[i] == x
  {
    if s[n - 1] == x then n - 1
    else
      assert s[..n] == s[..n - 1] + [s[n - 1]];
      LastPlace(s, n - 1, x)
  }

  lemma {:induction false} LastPlaceOfDistinct<A>(s: seq<A>, n: nat, i: nat)
    requires i < n <= |s| && Distinct(s)
    ensures s[i] in s[..n] && LastPlace(s, n, s[i]) == i
  {
    assert s[..n][i] == s[i];
    if i < n - 1 {
      LastPlaceOfDistinct(s, n - 1, i);
    }
  }

  lemma InPrefix<A>(s: seq<A>, i: nat, n: nat)
    requires i < n <= |s|
    ensures s[i] in s[..n]
  {
    assert s[..n][i] == s[i];
  }

  /** Registering a name again replaces the record. */
  lemma RegisterTwice(st: State, u: UserRecord, v: UserRecord)
    requires u.username == v.username
    ensures Register(Register(st, u), v) == Register(st, v)
  {
  }

  /** The share for every position is the share for the id at that position. */
  predicate Counted(S: Suite, ids: seq<int>)
    requires Order(S) > 0
  {
    forall i :: 0 <= i < |ids| ==> ids[i] % Order(S) == (i + 1) % Order(S)
  }

  function NodeIds(nodes: seq<IdentityNode>): (r: seq<int>)
    ensures |r| == |nodes| && forall i :: 0 <= i < |r| ==> r[i] == nodes[i].settings.nodeId
  {
    seq(|nodes|, i requires 0 <= i < |nodes| => nodes[i].settings.nodeId)
  }

  /** The record that the node in position k ends up with; a node listed twice keeps the last one. */
  ghost function FinalRecord(S: Suite, nodes: seq<IdentityNode>, n: nat, username: string, password: string,
                             sub: string, cs: seq<int>, k: nat): UserRecord
    requires Order(S) > 0 && cs != [] && k < n <= |nodes|
  {
    InPrefix(nodes, k, n);
    RegisteredRecord(S, username, password, sub, cs, LastPlace(nodes, n, nodes[k]), nodes[k].settings.nodeId)
  }

  /**
   * registerUserToNodes: shares a fresh PRF key over the nodes and registers the user at each of them.
   * The share goes by the node's position in the list, the key by the node's own id. Where ids count
   * from one in list order the user is enrolled everywhere.
   */
  method RegisterUserToNodes(S: Suite, nodes: seq<IdentityNode>, username: string, password: string, sub: string,
                             threshold: int, d: UserDraws) returns (error: Option<Error>)
    requires IsSuite(S) && forall i :: 0 <= i < |nodes| ==> nodes[i].Valid()
    modifies nodes
    ensures Order(S) > 0
    ensures error.None? <==> 1 <= threshold <= |nodes| && d.r % Order(S) != 0 && threshold <= Order(S)
    ensures error.Some? ==> forall i :: 0 <= i < |nodes| ==> nodes[i].history == old(nodes[i].history)
    ensures forall i :: 0 <= i < |nodes| ==> nodes[i].Valid()
    ensures error.None? ==>
              forall k :: 0 <= k < |nodes| ==>
                nodes[k].history
                == Register(old(nodes[k].history),
                            FinalRecord(S, nodes, |nodes|, username, password, sub,
                                        Frost.Coefficients(d.masterKey, threshold, d.coefficients), k))
    ensures error.None? && (threshold == 1 || Counted(S, NodeIds(nodes))) ==>
              forall k :: 0 <= k < |nodes| ==>
                EnrolledAt(S, nodes[k].history, nodes[k].settings.nodeId,
                           Account(username, sub, password, Frost.Coefficients(d.masterKey, threshold, d.coefficients)))
  {
    hide IsSuite, IsPrime, IsGroup, Toprf.Prf, Toprf.DeriveServerKey, Utf8.Encode, Eval, Register, EnrolledAt, Counted;
    OrderIsPrime(S);
    var cs := Frost.Coefficients(d.masterKey, threshold, d.coefficients);
    var toprfKeyShares := Toprf.GenerateToprfKey(d.masterKey, |nodes|, threshold, d.coefficients, Order(S));
    if toprfKeyShares.Err? {
      return Some(toprfKeyShares.error);
    }
    assert cs == [d.masterKey] + Shamir.Draws(d.coefficients, threshold - 1);
    var h := Toprf.RegistrationPrf(S, Utf8.Encode(password), toprfKeyShares.value, threshold, d.r, cs);
    if h.Err? {
      return Some(h.error);
    }
    RegisterEach(S, nodes, username, password, sub, cs, toprfKeyShares.value, h.value);
    forall k | 0 <= k < |nodes| && (threshold == 1 || Counted(S, NodeIds(nodes)))
      ensures EnrolledAt(S, nodes[k].history, nodes[k].settings.nodeId, Account(username, sub, password, cs))
    {
      InPrefix(nodes, k, |nodes|);
      CountedIsEnrolled(S, old(nodes[k].history), username, password, sub, cs, LastPlace(nodes, |nodes|, nodes[k]),
                        NodeIds(nodes));
    }
    return None;
  }

  /** The loop of registration: share i and the key for its id go to the node in position i. */
  method RegisterEach(S: Suite, nodes: seq<IdentityNode>, username: string, ghost password: string, sub: string,
                      ghost cs: seq<int>, shares: seq<Shamir.Share>, h: Bytes)
    requires Order(S) > 0 && cs != [] && shares == Shamir.SharesOf(cs, |nodes|, Order(S))
    requires h == Toprf.Prf(S, Utf8.Encode(password), cs[0])
    requires forall i :: 0 <= i < |nodes| ==> nodes[i].Valid()
    modifies nodes
    ensures forall i :: 0 <= i < |nodes| ==> nodes[i].Valid()
    ensures forall k :: 0 <= k < |nodes| ==>
              nodes[k].history
              == Register(old(nodes[k].history), FinalRecord(S, nodes, |nodes|, username, password, sub, cs, k))
  {
    hide Toprf.Prf, Toprf.DeriveServerKey, Utf8.Encode, Eval, Register, FinalRecord, LastPlace;
    for i := 0 to |nodes|
      invariant forall k :: 0 <= k < |nodes| ==> nodes[k].Valid()
      invariant forall k :: 0 <= k < |nodes| && nodes[k] !in nodes[..i] ==> nodes[k].history == old(nodes[k].history)
      invariant forall k :: 0 <= k < i ==>
                  nodes[k].history
                  == Register(old(nodes[k].history), FinalRecord(S, nodes, i, username, password, sub, cs, k))
    {
      ghost var u := RegisteredRecord(S, username, password, sub, cs, i, nodes[i].settings.nodeId);
      ghost var before := nodes[i].history;
      nodes[i].RegisterUser(username, sub, shares[i], Toprf.DeriveServerKey(S, h, nodes[i].settings.nodeId));
      assert nodes[..i + 1] == nodes[..i] + [nodes[i]];
      assert nodes[i].history == Register(before, u);
      assert Register(before, u) == Register(old(nodes[i].history), u) by {
        if nodes[i] in nodes[..i] {
          var last :| 0 <= last < i && nodes[last] == nodes[i];
          RecordName(S, nodes, i, username, password, sub, cs, last);
          RegisterTwice(old(nodes[i].history), FinalRecord(S, nodes, i, username, password, sub, cs, last), u);
        }
      }
      forall k | 0 <= k <= i
        ensures nodes[k].history
                == Register(old(nodes[k].history), FinalRecord(S, nodes, i + 1, username, password, sub, cs, k))
      {
        FinalStep(S, nodes, i, username, password, sub, cs, k);
      }
    }
  }

  lemma RecordName(S: Suite, nodes: seq<IdentityNode>, n: nat, username: string, password: string, sub: string,
                   cs: seq<int>, k: nat)
    requires Order(S) > 0 && cs != [] && k < n <= |nodes|
    ensures FinalRecord(S, nodes, n, username, password, sub, cs, k).username == username
  {
    hide Toprf.Prf, Toprf.DeriveServerKey, Utf8.Encode, Eval;
  }

  /** One turn replaces the record at its own node. */
  lemma FinalStep(S: Suite, nodes: seq<IdentityNode>, i: nat, username: string, password: string, sub: string,
                  cs: seq<int>, k: nat)
    requires Order(S) > 0 && cs != [] && k <= i < |nodes|
    ensures FinalRecord(S, nodes, i + 1, username, password, sub, cs, k)
            == if nodes[k] == nodes[i]
               then RegisteredRecord(S, username, password, sub, cs, i, nodes[i].settings.nodeId)
               else assert k < i; FinalRecord(S, nodes, i, username, password, sub, cs, k)
  {
    hide RegisteredRecord;
  }

  lemma CountedIsEnrolled(S: Suite, st: State, username: string, password: string, sub: string, cs: seq<int>, i: nat,
                          ids: seq<int>)
    requires Order(S) > 0 && cs != [] && i < |ids| && (|cs| == 1 || Counted(S, ids))
    ensures EnrolledAt(S, Register(st, RegisteredRecord(S, username, password, sub, cs, i, ids[i])), ids[i],
                       Account(username, sub, password, cs))
  {
    RegisteredIsEnrolled(S, st, username, password, sub, cs, i, ids[i]);
    SharesCoincide(cs, i + 1, ids[i], Order(S));
    hide EnrolledAt, RegisteredRecord, Eval;
  }

  /** With one coefficient, or at congruent places, the polynomial has one value. */
  lemma SharesCoincide(cs: seq<int>, x: int, y: int, p: int)
    requires p > 0 && cs != [] && (|cs| == 1 || x % p == y % p)
    ensures Eval(cs, x) % p == Eval(cs, y) % p
  {
    if |cs| == 1 {
      EvalUnfold(cs, x);
      EvalUnfold(cs, y);
      assert cs[1..] == [] && x * 0 == y * 0 == 0;
    } else {
      EvalCongruent(cs, x, y, p);
    }
  }

  lemma RegisteredIsEnrolled(S: Suite, st: State, username: string, password: string, sub: string, cs: seq<int>, i: nat,
                             nodeId: int)
    requires Order(S) > 0 && cs != []
    ensures EnrolledAt(S, Register(st, RegisteredRecord(S, username, password, sub, cs, i, nodeId)), nodeId,
                       Account(username, sub, password, cs))
            <==> Eval(cs, i + 1) % Order(S) == Eval(cs, nodeId) % Order(S)
  {
    hide Eval, Toprf.Prf, Toprf.DeriveServerKey, Utf8.Encode;
    ModSelf(Eval(cs, i + 1), Order(S));
  }

  // ---- When registration enrols ------------------------------------------------------

  /** 0, 1, 0, ..., 0: the polynomial x, as a list of t coefficients. */
  function Identical(t: nat): (cs: seq<int>)
    requires t >= 2
    ensures |cs| == t && cs[0] == 0 && cs[1] == 1
  {
    [0, 1] + seq(t - 2, i => 0)
  }

  lemma {:induction false} EvalZeros(cs: seq<int>, x: int)
    requires forall i :: 0 <= i < |cs| ==> cs[i] == 0
    ensures Eval(cs, x) == 0
  {
    if cs != [] {
      EvalZeros(cs[1..], x);
    }
  }

  lemma EvalIdentical(t: nat, x: int)
    requires t >= 2
    ensures Eval(Identical(t), x) == x
  {
    var cs := Identical(t);
    EvalUnfold(cs, x);
    EvalUnfold(cs[1..], x);
    EvalZeros(cs[1..][1..], x);
  }

  /** The user is enrolled at every node of the list, whose ids and earlier states are given. */
  ghost predicate EnrolledEverywhere(S: Suite, ids: seq<int>, sts: seq<State>, username: string, password: string,
                                     sub: string, cs: seq<int>)
    requires Order(S) > 0 && cs != [] && |sts| == |ids|
  {
    forall i :: 0 <= i < |ids| ==> EnrolledInPlace(S, ids, sts, username, password, sub, cs, i)
  }

  ghost predicate EnrolledInPlace(S: Suite, ids: seq<int>, sts: seq<State>, username: string, password: string,
                                  sub: string, cs: seq<int>, i: nat)
    requires Order(S) > 0 && cs != [] && |sts| == |ids| && i < |ids|
  {
    EnrolledAt(S, Register(sts[i], RegisteredRecord(S, username, password, sub, cs, i, ids[i])), ids[i],
               Account(username, sub, password, cs))
  }

  /**
   * Registration with threshold t enrols the user at every node, for whatever scalars are drawn, exactly
   * when t is one or the ids of the nodes count from one in list order, modulo the group order.
   */
  lemma RegistrationEnrols(S: Suite, ids: seq<int>, sts: seq<State>, username: string, password: string, sub: string,
                           t: nat)
    requires Order(S) > 0 && t >= 1 && |sts| == |ids|
    ensures (forall cs: seq<int> :: |cs| == t ==> EnrolledEverywhere(S, ids, sts, username, password, sub, cs))
            <==> t == 1 || Counted(S, ids)
  {
    hide EnrolledAt, Register, RegisteredRecord, Eval;
    if t == 1 || Counted(S, ids) {
      forall cs: seq<int> | |cs| == t
        ensures EnrolledEverywhere(S, ids, sts, username, password, sub, cs)
      {
        forall i | 0 <= i < |ids|
          ensures EnrolledInPlace(S, ids, sts, username, password, sub, cs, i)
        {
          CountedIsEnrolled(S, sts[i], username, password, sub, cs, i, ids);
        }
      }
    } else if forall cs: seq<int> :: |cs| == t ==> EnrolledEverywhere(S, ids, sts, username, password, sub, cs) {
      assert EnrolledEverywhere(S, ids, sts, username, password, sub, Identical(t));
      forall i | 0 <= i < |ids|
        ensures ids[i] % Order(S) == (i + 1) % Order(S)
      {
        assert EnrolledInPlace(S, ids, sts, username, password, sub, Identical(t), i);
        RegisteredIsEnrolled(S, sts[i], username, password, sub, Identical(t), i, ids[i]);
        EvalIdentical(t, i + 1);
        EvalIdentical(t, ids[i]);
      }
    }
  }

  /** Concretely: nodes 2 and 1, in this order, threshold 2. Registration succeeds and enrols at neither. */
  method SwappedNodes(S: Suite, keyShares: (int, int), publicKey: Bytes, issuer: string, username: string,
                      password: string, sub: string)
      returns (two: IdentityNode, one: IdentityNode, error: Option<Error>)
    requires IsSuite(S)
    ensures fresh(two) && fresh(one)
    ensures two.settings == Settings(2, keyShares.0, publicKey, Base64Url.StripEnd(issuer, '/'), DEFAULT_KEY_ID)
    ensures one.settings == Settings(1, keyShares.1, publicKey, Base64Url.StripEnd(issuer, '/'), DEFAULT_KEY_ID)
    ensures Order(S) > 0 && error == None
    ensures two.history == Register(INITIAL, RegisteredRecord(S, username, password, sub, [1, 1], 0, 2))
    ensures one.history == Register(INITIAL, RegisteredRecord(S, username, password, sub, [1, 1], 1, 1))
    ensures !EnrolledAt(S, two.history, 2, Account(username, sub, password, [1, 1]))
    ensures !EnrolledAt(S, one.history, 1, Account(username, sub, password, [1, 1]))
  {
    hide IsSuite, IsGroup, EnrolledAt, Register, RegisteredRecord, Eval;
    OrderIsPrime(S);
    two := new IdentityNode(S, 2, keyShares.0, publicKey, issuer, DEFAULT_KEY_ID);
    one := new IdentityNode(S, 1, keyShares.1, publicKey, issuer, DEFAULT_KEY_ID);
    var nodes := [two, one];
    var d := UserDraws(1, _ => 1, 1);
    ModUnique(1, 0, 1, Order(S));
    error := RegisterUserToNodes(S, nodes, username, password, sub, 2, d);
    assert Frost.Coefficients(1, 2, d.coefficients) == [1, 1];
    LastPlaceOfDistinct(nodes, 2, 0);
    LastPlaceOfDistinct(nodes, 2, 1);
    RegisteredIsEnrolled(S, INITIAL, username, password, sub, [1, 1], 0, 2);
    RegisteredIsEnrolled(S, INITIAL, username, password, sub, [1, 1], 1, 1);
    TwoApart(Order(S));
  }

  lemma TwoApart(p: int)
    requires p >= 2
    ensures Eval([1, 1], 1) % p != Eval([1, 1], 2) % p
  {
    EvalUnfold([1, 1], 1);
    EvalUnfold([1, 1], 2);
    EvalUnfold([1], 1);
    EvalUnfold([1], 2);
    assert [1, 1][1..] == [1] && [1][1..] == [];
    assert Eval([1, 1], 1) == 2 && Eval([1, 1], 2) == 3;
    if 3 % p == 2 % p {
      CongZero(3, 2, p);
      ModUnique(1, 0, 1, p);
    }
  }
}
