/**
 * The trusted dealer of projects/dealer/src/dealer.ts: it validates its options, shares the group key
 * and every user's PRF key, and writes one file per node. The random scalars are arguments.
 */
module Dealer {
  import opened Arith
  import opened Seqs
  import opened Bytes
  import opened Interpolation
  import opened Suites
  import Frost
  import Shamir
  import Toprf
  import Hex
  import Utf8

  const OUTPUT_VERSION := 1

  datatype UserSpec = UserSpec(username: string, password: string, sub: string)

  datatype Options = Options(threshold: int, total: int, keyId: string, users: seq<UserSpec>)

  datatype NodeUserRecord = NodeUserRecord(username: string, sub: string, shareId: int, shareValue: string,
                                           serverKey: string)

  datatype NodeFile = NodeFile(version: int, nodeId: int, threshold: int, total: int, groupPublicKey: string,
                               secretKeyShare: string, users: seq<NodeUserRecord>)

  datatype GroupFile = GroupFile(version: int, threshold: int, total: int, keyId: string, groupPublicKey: string)

  datatype Output = Output(group: GroupFile, nodes: seq<NodeFile>)

  /** The scalars drawn for one user: its PRF key, the other coefficients, the blinding. */
  datatype UserDraws = UserDraws(masterKey: int, coefficients: nat -> int, r: int)

  /** All scalars drawn in one run. */
  datatype Entropy = Entropy(masterSecret: int, coefficients: nat -> int, users: nat -> UserDraws)

  // ---- Validation --------------------------------------------------------------------

  predicate HasUsername(users: seq<UserSpec>, name: string)
  {
    exists i :: 0 <= i < |users| && users[i].username == name
  }

  predicate HasSub(users: seq<UserSpec>, sub: string) { exists i :: 0 <= i < |users| && users[i].sub == sub }

  /** The first complaint about the users, in the order of the list. */
  function CheckUsers(users: seq<UserSpec>): Option<Error>
  {
    if users == [] then None
    else
      match CheckUsers(Front(users))
      case Some(e) => Some(e)
      case None =>
        var u := Last(users);
        if u.username == "" then Some(EmptyUsername)
        else if u.sub == "" then Some(EmptySub)
        else if HasUsername(Front(users), u.username) then Some(DuplicateUsername)
        else if HasSub(Front(users), u.sub) then Some(DuplicateSub)
        else None
  }

  function CheckOptions(o: Options): Option<Error>
  {
    if o.total < 1 then Some(BadTotal)
    else if o.threshold < 1 || o.threshold > o.total then Some(BadThreshold)
    else if o.keyId == "" then Some(EmptyKeyId)
    else if o.users == [] then Some(NoUsers)
    else CheckUsers(o.users)
  }

  function UsernameOf(u: UserSpec): string { u.username }

  function SubOf(u: UserSpec): string { u.sub }

  function Usernames(users: seq<UserSpec>): seq<string> { Map(UsernameOf, users) }

  function Subs(users: seq<UserSpec>): seq<string> { Map(SubOf, users) }

  /** The users pass exactly when all names are there and no name and no sub occurs twice. */
  lemma {:induction false} CheckUsersExact(users: seq<UserSpec>)
    ensures CheckUsers(users).None? <==>
            (forall i :: 0 <= i < |users| ==> users[i].username != "" && users[i].sub != "")
            && Distinct(Usernames(users)) && Distinct(Subs(users))
  {
    if users != [] {
      var f, u := Front(users), Last(users);
      CheckUsersExact(f);
      assert Usernames(users) == Usernames(f) + [u.username];
      assert Subs(users) == Subs(f) + [u.sub];
      DistinctSnoc(Usernames(f), u.username);
      DistinctSnoc(Subs(f), u.sub);
      NameListed(f, u);
    }
  }

  lemma NameListed(users: seq<UserSpec>, u: UserSpec)
    ensures HasUsername(users, u.username) <==> u.username in Usernames(users)
    ensures HasSub(users, u.sub) <==> u.sub in Subs(users)
  {
    if HasUsername(users, u.username) {
      var i :| 0 <= i < |users| && users[i].username == u.username;
      assert Usernames(users)[i] == u.username;
    }
    if HasSub(users, u.sub) {
      var i :| 0 <= i < |users| && users[i].sub == u.sub;
      assert Subs(users)[i] == u.sub;
    }
  }

  lemma DistinctSnoc<T>(s: seq<T>, x: T)
    ensures Distinct(s + [x]) <==> Distinct(s) && x !in s
  {
    var t := s + [x];
    if Distinct(t) {
      forall i, j | 0 <= i < j < |s|
        ensures s[i] != s[j]
      {
        assert t[i] != t[j];
      }
      forall i | 0 <= i < |s|
        ensures s[i] != x
      {
        assert t[i] != t[|s|];
      }
    }
  }

  // ---- What the files hold -----------------------------------------------------------

  /** The polynomial that shares the group key. */
  function KeyPolynomial(o: Options, e: Entropy): (cs: seq<int>)
    ensures cs != [] && cs[0] == e.masterSecret
  {
    Frost.Coefficients(e.masterSecret, o.threshold, e.coefficients)
  }

  /** The polynomial that shares the PRF key of user j. */
  function ToprfPolynomial(o: Options, e: Entropy, j: nat): (cs: seq<int>)
    ensures cs != [] && cs[0] == e.users(j).masterKey
  {
    Frost.Coefficients(e.users(j).masterKey, o.threshold, e.users(j).coefficients)
  }

  /** 64 hexadecimal digits of a reduced scalar. */
  function HexScalar(n: int, p: int): string
    requires p > 0
  {
    Hex.NodeScalarToHex(n % p)
  }

  /** What the file of node id says about user j. */
  function RecordFor(S: Suite, o: Options, e: Entropy, id: int, j: nat): NodeUserRecord
    requires Order(S) > 0 && j < |o.users|
  {
    var u, cs := o.users[j], ToprfPolynomial(o, e, j);
    NodeUserRecord(u.username, u.sub, id, HexScalar(Eval(cs, id), Order(S)),
                   Hex.HexOf(Toprf.DeriveServerKey(S, Toprf.Prf(S, Utf8.Encode(u.password), cs[0]), id)))
  }

  function RecordsFor(S: Suite, o: Options, e: Entropy, id: int, n: nat): (r: seq<NodeUserRecord>)
    requires Order(S) > 0 && n <= |o.users|
    ensures |r| == n
  {
    if n == 0 then [] else RecordsFor(S, o, e, id, n - 1) + [RecordFor(S, o, e, id, n - 1)]
  }

  lemma {:induction false} RecordsAt(S: Suite, o: Options, e: Entropy, id: int, n: nat, j: nat)
    requires Order(S) > 0 && j < n <= |o.users|
    ensures RecordsFor(S, o, e, id, n)[j] == RecordFor(S, o, e, id, j)
  {
    hide RecordFor;
    if j < n - 1 {
      RecordsAt(S, o, e, id, n - 1, j);
    }
  }

  function FileOf(S: Suite, o: Options, e: Entropy, id: int): NodeFile
    requires Order(S) > 0
  {
    NodeFile(OUTPUT_VERSION, id, o.threshold, o.total, Hex.HexOf(S.ed.mul(e.masterSecret, S.ed.base)),
             HexScalar(Eval(KeyPolynomial(o, e), id), Order(S)), RecordsFor(S, o, e, id, |o.users|))
  }

  function FilesOf(S: Suite, o: Options, e: Entropy, n: nat): (r: seq<NodeFile>)
    requires Order(S) > 0
    ensures |r| == n
  {
    if n == 0 then [] else FilesOf(S, o, e, n - 1) + [FileOf(S, o, e, n)]
  }

  lemma {:induction false} FilesAt(S: Suite, o: Options, e: Entropy, n: nat, i: nat)
    requires Order(S) > 0 && i < n
    ensures FilesOf(S, o, e, n)[i] == FileOf(S, o, e, i + 1)
  {
    hide FileOf;
    if i < n - 1 {
      FilesAt(S, o, e, n - 1, i);
    }
  }

  function GroupOf(S: Suite, o: Options, e: Entropy): GroupFile
  {
    GroupFile(OUTPUT_VERSION, o.threshold, o.total, o.keyId, Hex.HexOf(S.ed.mul(e.masterSecret, S.ed.base)))
  }

  // ---- The dealer --------------------------------------------------------------------

  /** The PRF key of user j cannot be unblinded: its blinding is zero, or two of the first ids coincide. */
  predicate Undealable(S: Suite, o: Options, e: Entropy, j: nat)
    requires Order(S) > 0
  {
    e.users(j).r % Order(S) == 0 || o.threshold > Order(S)
  }

  /** The first n users can all be dealt. */
  ghost predicate Dealable(S: Suite, o: Options, e: Entropy, n: nat)
    requires Order(S) > 0
  {
    forall j :: 0 <= j < n ==> !Undealable(S, o, e, j)
  }

  method ValidateUsers(users: seq<UserSpec>) returns (complaint: Option<Error>)
    ensures complaint == CheckUsers(users)
  {
    var names: set<string> := {};
    var subs: set<string> := {};
    for i := 0 to |users|
      invariant CheckUsers(users[..i]).None?
      invariant forall n :: n in names <==> HasUsername(users[..i], n)
      invariant forall s :: s in subs <==> HasSub(users[..i], s)
    {
      var user := users[i];
      PrefixStep(users, i);
      var bad := None;
      if user.username == "" {
        bad := Some(EmptyUsername);
      } else if user.sub == "" {
        bad := Some(EmptySub);
      } else if user.username in names {
        bad := Some(DuplicateUsername);
      } else if user.sub in subs {
        bad := Some(DuplicateSub);
      }
      assert CheckUsers(users[..i + 1]) == bad;
      if bad.Some? {
        FirstComplaint(users, i + 1);
        return bad;
      }
      NamesGrow(users, i);
      names := names + {user.username};
      subs := subs + {user.sub};
    }
    assert users[..|users|] == users;
    return None;
  }

  lemma NamesGrow(users: seq<UserSpec>, i: nat)
    requires i < |users|
    ensures forall n :: HasUsername(users[..i + 1], n) <==> HasUsername(users[..i], n) || n == users[i].username
    ensures forall s :: HasSub(users[..i + 1], s) <==> HasSub(users[..i], s) || s == users[i].sub
  {
    var f, t := users[..i], users[..i + 1];
    assert t[i] == users[i];
    forall n
      ensures HasUsername(t, n) <==> HasUsername(f, n) || n == users[i].username
    {
      if HasUsername(f, n) {
        var k :| 0 <= k < |f| && f[k].username == n;
        assert t[k].username == n;
      }
      if HasUsername(t, n) {
        var k :| 0 <= k < |t| && t[k].username == n;
        assert k < i ==> f[k].username == n;
      }
    }
    forall s
      ensures HasSub(t, s) <==> HasSub(f, s) || s == users[i].sub
    {
      if HasSub(f, s) {
        var k :| 0 <= k < |f| && f[k].sub == s;
        assert t[k].sub == s;
      }
      if HasSub(t, s) {
        var k :| 0 <= k < |t| && t[k].sub == s;
        assert k < i ==> f[k].sub == s;
      }
    }
  }

  lemma {:induction false} FirstComplaint(users: seq<UserSpec>, i: nat)
    requires i <= |users| && CheckUsers(users[..i]).Some?
    ensures CheckUsers(users) == CheckUsers(users[..i])
  {
    if i < |users| {
      assert Front(users)[..i] == users[..i];
      FirstComplaint(Front(users), i);
    } else {
      assert users[..i] == users;
    }
  }

  /** The key material of one user, ready to be recorded at every node. */
  method DealUser(S: Suite, o: Options, e: Entropy, j: nat) returns (r: Result<(seq<Shamir.Share>, Bytes)>)
    requires IsSuite(S) && 1 <= o.threshold <= o.total && j < |o.users|
    ensures r.Err? ==> r == Err(ZeroHasNoInverse)
    ensures r.Err? <==> Undealable(S, o, e, j)
    ensures r.Ok? ==> r.value.0 == Shamir.SharesOf(ToprfPolynomial(o, e, j), o.total, Order(S))
    ensures r.Ok? ==> r.value.1 == Toprf.Prf(S, Utf8.Encode(o.users[j].password), ToprfPolynomial(o, e, j)[0])
  {
    hide Toprf.Prf, Utf8.Encode;
    OrderIsPrime(S);
    var draws := e.users(j);
    var shares := Toprf.GenerateToprfKey(draws.masterKey, o.total, o.threshold, draws.coefficients, Order(S));
    assert ToprfPolynomial(o, e, j) == [draws.masterKey] + Shamir.Draws(draws.coefficients, o.threshold - 1);
    var h := Toprf.RegistrationPrf(S, Utf8.Encode(o.users[j].password), shares.value, o.threshold, draws.r,
                                   ToprfPolynomial(o, e, j));
    if h.Err? {
      return Err(h.error);
    }
    return Ok((shares.value, h.value));
  }

  /** A reduced scalar always fits its 64 digits. */
  lemma ScalarWrites(S: Suite, n: int)
    requires IsSuite(S)
    ensures Hex.ScalarToHex(n % Order(S)) == Ok(HexScalar(n, Order(S)))
  {
    hide IsSuite, IsPrime, IsGroup, Hex.ScalarToHex, Hex.NodeScalarToHex, Pow;
    OrderIsPrime(S);
    Hex.ScalarRoundTrip(n % Order(S));
  }

  method Validate(o: Options) returns (complaint: Option<Error>)
    ensures complaint == CheckOptions(o)
  {
    if o.total < 1 {
      return Some(BadTotal);
    }
    if o.threshold < 1 || o.threshold > o.total {
      return Some(BadThreshold);
    }
    if |o.keyId| == 0 {
      return Some(EmptyKeyId);
    }
    if |o.users| == 0 {
      return Some(NoUsers);
    }
    complaint := ValidateUsers(o.users);
  }

  /** How many users node k has on record when user j is being pushed and node id is next. */
  function Pushed(j: nat, id: int, k: int): nat { if k < id then j + 1 else j }

  ghost predicate NodeRecorded(S: Suite, o: Options, e: Entropy, records: map<int, seq<NodeUserRecord>>, j: nat,
                               id: int, k: int)
    requires Order(S) > 0
  {
    k in records && Pushed(j, id, k) <= |o.users| && records[k] == RecordsFor(S, o, e, k, Pushed(j, id, k))
  }

  /** The records of every node: j users, and one more at the nodes before id. */
  ghost predicate Recorded(S: Suite, o: Options, e: Entropy, records: map<int, seq<NodeUserRecord>>, j: nat, id: int)
    requires Order(S) > 0
  {
    forall k :: 1 <= k <= o.total ==> NodeRecorded(S, o, e, records, j, id, k)
  }

  lemma RecordedStep(S: Suite, o: Options, e: Entropy, records: map<int, seq<NodeUserRecord>>, j: nat, id: int)
    requires Order(S) > 0 && 1 <= id <= o.total && j < |o.users| && Recorded(S, o, e, records, j, id)
    ensures id in records
    ensures Recorded(S, o, e, records[id := records[id] + [RecordFor(S, o, e, id, j)]], j, id + 1)
  {
    hide RecordFor;
    assert NodeRecorded(S, o, e, records, j, id, id);
    var records', next := records[id := records[id] + [RecordFor(S, o, e, id, j)]], id + 1;
    forall k | 1 <= k <= o.total
      ensures NodeRecorded(S, o, e, records', j, next, k)
    {
      assert NodeRecorded(S, o, e, records, j, id, k);
    }
  }

  lemma RecordedTurn(S: Suite, o: Options, e: Entropy, records: map<int, seq<NodeUserRecord>>, j: nat)
    requires Order(S) > 0 && Recorded(S, o, e, records, j, o.total + 1)
    ensures Recorded(S, o, e, records, j + 1, 1)
  {
    hide RecordsFor;
    var next, end := j + 1, o.total + 1;
    forall k | 1 <= k <= o.total
      ensures NodeRecorded(S, o, e, records, next, 1, k)
    {
      assert NodeRecorded(S, o, e, records, j, end, k);
    }
  }

  lemma NoneRecorded(S: Suite, o: Options, e: Entropy, records: map<int, seq<NodeUserRecord>>)
    requires Order(S) > 0 && forall k :: 1 <= k <= o.total ==> k in records && records[k] == []
    ensures Recorded(S, o, e, records, 0, 1)
  {
    hide RecordFor;
  }

  lemma AllRecorded(S: Suite, o: Options, e: Entropy, records: map<int, seq<NodeUserRecord>>, k: int)
    requires Order(S) > 0 && Recorded(S, o, e, records, |o.users|, 1) && 1 <= k <= o.total
    ensures k in records && records[k] == RecordsFor(S, o, e, k, |o.users|)
  {
    hide RecordsFor;
    assert NodeRecorded(S, o, e, records, |o.users|, 1, k);
  }

  /** Pushes the record of one user onto the list of every node. */
  method RecordUser(S: Suite, o: Options, e: Entropy, j: nat, shares: seq<Shamir.Share>, h: Bytes,
                    records: map<int, seq<NodeUserRecord>>) returns (records': map<int, seq<NodeUserRecord>>)
    requires IsSuite(S) && 1 <= o.total && j < |o.users| && Recorded(S, o, e, records, j, 1)
    requires shares == Shamir.SharesOf(ToprfPolynomial(o, e, j), o.total, Order(S))
    requires h == Toprf.Prf(S, Utf8.Encode(o.users[j].password), ToprfPolynomial(o, e, j)[0])
    ensures Recorded(S, o, e, records', j + 1, 1)
  {
    hide *;
    OrderIsPrime(S);
    records' := records;
    for id := 1 to o.total + 1
      invariant Recorded(S, o, e, records', j, id)
    {
      RecordedStep(S, o, e, records', j, id);
      var entry := MakeRecord(S, o, e, j, id, shares[id - 1], h);
      records' := records'[id := records'[id] + [entry]];
    }
    RecordedTurn(S, o, e, records', j);
  }

  /** What is written down of one user for one node. */
  method MakeRecord(S: Suite, o: Options, e: Entropy, j: nat, id: int, keyShare: Shamir.Share, h: Bytes)
    returns (entry: NodeUserRecord)
    requires IsSuite(S) && j < |o.users|
    requires keyShare == Shamir.Share(id, Eval(ToprfPolynomial(o, e, j), id) % Order(S))
    requires h == Toprf.Prf(S, Utf8.Encode(o.users[j].password), ToprfPolynomial(o, e, j)[0])
    ensures entry == RecordFor(S, o, e, id, j)
  {
    hide IsSuite, Eval, Hex.HexOf, HexScalar, Toprf.DeriveServerKey, Toprf.Prf, Utf8.Encode, ToprfPolynomial;
    ScalarWrites(S, Eval(ToprfPolynomial(o, e, j), id));
    var value := Hex.ScalarToHex(keyShare.value);
    var serverKey := Hex.BytesToHex(Toprf.DeriveServerKey(S, h, id));
    entry := NodeUserRecord(o.users[j].username, o.users[j].sub, keyShare.id, value.value, serverKey);
  }

  lemma NoneDealt(S: Suite, o: Options, e: Entropy)
    requires Order(S) > 0
    ensures Dealable(S, o, e, 0)
  {
  }

  lemma OneMoreDealt(S: Suite, o: Options, e: Entropy, j: nat, n: nat)
    requires Order(S) > 0 && j < n && Dealable(S, o, e, j)
    ensures !Undealable(S, o, e, j) ==> Dealable(S, o, e, j + 1)
    ensures Undealable(S, o, e, j) ==> !Dealable(S, o, e, n)
  {
    hide Undealable;
  }

  /** One turn of the dealer's loop over its users. */
  method AddUser(S: Suite, o: Options, e: Entropy, j: nat, records: map<int, seq<NodeUserRecord>>)
    returns (r: Result<map<int, seq<NodeUserRecord>>>)
    requires IsSuite(S) && 1 <= o.threshold <= o.total && j < |o.users|
    requires Recorded(S, o, e, records, j, 1)
    ensures r.Ok? <==> !Undealable(S, o, e, j)
    ensures r.Err? ==> r == Err(ZeroHasNoInverse)
    ensures r.Ok? ==> Recorded(S, o, e, r.value, j + 1, 1)
  {
    hide *;
    OrderIsPrime(S);
    var dealt := DealUser(S, o, e, j);
    if dealt.Err? {
      return Err(dealt.error);
    }
    var records' := RecordUser(S, o, e, j, dealt.value.0, dealt.value.1, records);
    return Ok(records');
  }

  method EmptyRecords(total: nat) returns (records: map<int, seq<NodeUserRecord>>)
    ensures forall k :: 1 <= k <= total ==> k in records && records[k] == []
  {
    records := map[];
    for id := 1 to total + 1
      invariant forall k :: 1 <= k < id ==> k in records && records[k] == []
    {
      records := records[id := []];
    }
  }

  /** The TOPRF material of all users, one list of records per node. */
  method DealUsers(S: Suite, o: Options, e: Entropy) returns (r: Result<map<int, seq<NodeUserRecord>>>)
    requires IsSuite(S) && 1 <= o.threshold <= o.total
    ensures r.Ok? <==> Dealable(S, o, e, |o.users|)
    ensures r.Err? ==> r == Err(ZeroHasNoInverse)
    ensures r.Ok? ==> Recorded(S, o, e, r.value, |o.users|, 1)
  {
    hide *;
    OrderIsPrime(S);
    NoneDealt(S, o, e);
    var recordsByNode := EmptyRecords(o.total);
    NoneRecorded(S, o, e, recordsByNode);
    for j := 0 to |o.users|
      invariant Dealable(S, o, e, j)
      invariant Recorded(S, o, e, recordsByNode, j, 1)
    {
      OneMoreDealt(S, o, e, j, |o.users|);
      var added := AddUser(S, o, e, j, recordsByNode);
      if added.Err? {
        return added;
      }
      recordsByNode := added.value;
    }
    return Ok(recordsByNode);
  }

  /** The file of one node. */
  method WriteFile(S: Suite, o: Options, e: Entropy, id: int, share: int, groupPublicKeyHex: string,
                   users: seq<NodeUserRecord>)
    returns (file: NodeFile)
    requires IsSuite(S) && share == Eval(KeyPolynomial(o, e), id) % Order(S)
    requires groupPublicKeyHex == Hex.HexOf(S.ed.mul(e.masterSecret, S.ed.base))
             && users == RecordsFor(S, o, e, id, |o.users|)
    ensures file == FileOf(S, o, e, id)
  {
    hide IsSuite, Eval, Hex.HexOf, HexScalar, RecordsFor, KeyPolynomial;
    OrderIsPrime(S);
    ScalarWrites(S, Eval(KeyPolynomial(o, e), id));
    var hex := Hex.ScalarToHex(share);
    file := NodeFile(OUTPUT_VERSION, id, o.threshold, o.total, groupPublicKeyHex, hex.value, users);
  }

  /**
   * generateDealerOutput. It refuses exactly what its checks refuse or what cannot be unblinded, and
   * otherwise writes the files described above.
   */
  method GenerateDealerOutput(S: Suite, o: Options, e: Entropy) returns (out: Result<Output>)
    requires IsSuite(S)
    ensures CheckOptions(o).Some? ==> out == Err(CheckOptions(o).value)
    ensures CheckOptions(o).None? ==>
              out == if Dealable(S, o, e, |o.users|) then Ok(Output(GroupOf(S, o, e), FilesOf(S, o, e, o.total)))
                     else Err(ZeroHasNoInverse)
  {
    hide IsSuite, IsPrime, IsGroup, Eval, Hex.HexOf, FilesOf, Recorded, CheckOptions, Dealable, Frost.Coefficients;
    OrderIsPrime(S);
    var complaint := Validate(o);
    if complaint.Some? {
      return Err(complaint.value);
    }
    ValidThreshold(o);
    var groupPublicKey, shares := Frost.GenerateShamirShares(S, e.masterSecret, o.threshold, o.total, e.coefficients);
    var groupPublicKeyHex := Hex.BytesToHex(groupPublicKey);
    var records := DealUsers(S, o, e);
    if records.Err? {
      return Err(records.error);
    }
    var nodes := WriteFiles(S, o, e, shares, groupPublicKeyHex, records.value);
    return Ok(Output(GroupFile(OUTPUT_VERSION, o.threshold, o.total, o.keyId, groupPublicKeyHex), nodes));
  }

  lemma ValidThreshold(o: Options)
    requires CheckOptions(o).None?
    ensures 1 <= o.threshold <= o.total
  {
  }

  /** The files of all nodes, in ascending order. */
  method WriteFiles(S: Suite, o: Options, e: Entropy, shares: map<int, int>, groupPublicKeyHex: string,
                    records: map<int, seq<NodeUserRecord>>) returns (nodes: seq<NodeFile>)
    requires IsSuite(S) && 1 <= o.total && Recorded(S, o, e, records, |o.users|, 1)
    requires groupPublicKeyHex == Hex.HexOf(S.ed.mul(e.masterSecret, S.ed.base))
    requires forall i :: 1 <= i <= o.total ==> i in shares && shares[i] == Eval(KeyPolynomial(o, e), i) % Order(S)
    ensures nodes == FilesOf(S, o, e, o.total)
  {
    hide IsSuite, Eval, Hex.HexOf, FileOf, Recorded, RecordsFor, KeyPolynomial;
    OrderIsPrime(S);
    nodes := [];
    for id := 1 to o.total + 1
      invariant nodes == FilesOf(S, o, e, id - 1)
    {
      AllRecorded(S, o, e, records, id);
      var file := WriteFile(S, o, e, id, shares[id], groupPublicKeyHex, records[id]);
      nodes := nodes + [file];
    }
  }
}
