/**
 * The node's configuration loader (projects/node/src/config.ts): the checks of a node file, in order,
 * and the values it is turned into.
 */
module NodeConfig {
  import opened Arith
  import opened Seqs
  import opened Bytes
  import opened Json
  import Shamir
  import Hex

  const CONFIG_VERSION := 1

  datatype UserConfig = UserConfig(username: string, sub: string, toprfKeyShare: Shamir.Share, serverKey: Bytes)

  datatype Config = Config(version: int, nodeId: int, threshold: int, total: int, groupPublicKey: Bytes,
                           secretKeyShare: int, users: seq<UserConfig>)

  // ---- Fields ------------------------------------------------------------------------

  function RequireString(v: Option<Json>): Result<string>
  {
    match v
    case Some(Str(s)) => if s == "" then Err(FieldMissing) else Ok(s)
    case _ => Err(FieldMissing)
  }

  function RequireInteger(v: Option<Json>): Result<int>
  {
    match v
    case Some(Num(n)) => Ok(n)
    case _ => Err(NotAnInteger)
  }

  /** A non-empty hexadecimal string of the given number of bytes. */
  function RequireHex(v: Option<Json>, byteLength: nat): Result<string>
  {
    match RequireString(v)
    case Err(e) => Err(e)
    case Ok(hex) =>
      if !Hex.AllHex(hex) then Err(BadHexDigit)
      else if |hex| != byteLength * 2 then Err(BadHexLength)
      else Ok(hex)
  }

  function PairBytes(hex: string): (b: Bytes)
    requires Hex.AllHex(hex)
    ensures |b| == |hex| / 2 && forall i :: 0 <= i < |b| ==> b[i] == Hex.PairValue(hex, i)
  {
    seq(|hex| / 2, i requires 0 <= i < |hex| / 2 => Hex.PairValue(hex, i))
  }

  function BytesField(v: Option<Json>, byteLength: nat): Result<Bytes>
  {
    match RequireHex(v, byteLength)
    case Err(e) => Err(e)
    case Ok(hex) => Ok(PairBytes(hex))
  }

  method DecodeBytes(v: Option<Json>, byteLength: nat) returns (r: Result<Bytes>)
    ensures r == BytesField(v, byteLength)
  {
    var hex := RequireHex(v, byteLength);
    if hex.Err? {
      return Err(hex.error);
    }
    var out := new byte[byteLength](_ => 0);
    for i := 0 to byteLength
      invariant forall k :: 0 <= k < i ==> out[k] == Hex.PairValue(hex.value, k)
    {
      out[i] := Hex.PairValue(hex.value, i);
    }
    assert out[..] == PairBytes(hex.value);
    return Ok(out[..]);
  }

  function ScalarField(v: Option<Json>): Result<int>
  {
    match RequireHex(v, 32)
    case Err(e) => Err(e)
    case Ok(hex) => Ok(Hex.HexNumber(hex))
  }

  // ---- Users -------------------------------------------------------------------------

  function ParseUser(raw: Json, nodeId: int): Result<UserConfig>
  {
    if !raw.Obj? then Err(NotAnObject)
    else
      var username, sub := RequireString(Field(raw, "username")), RequireString(Field(raw, "sub"));
      if username.Err? then Err(username.error)
      else if sub.Err? then Err(sub.error)
      else
        match Field(raw, "toprfKeyShare")
        case Some(Obj(ms)) => ParseShare(raw, Obj(ms), nodeId, username.value, sub.value)
        case _ => Err(NotAnObject)
  }

  function ParseShare(raw: Json, share: Json, nodeId: int, username: string, sub: string): Result<UserConfig>
  {
    var id := RequireInteger(Field(share, "id"));
    if id.Err? then Err(id.error)
    else if id.value != nodeId then Err(WrongShareId)
    else
      var value := ScalarField(Field(share, "value"));
      if value.Err? then Err(value.error)
      else
        var serverKey := BytesField(Field(raw, "h_i"), 32);
        if serverKey.Err? then Err(serverKey.error)
        else Ok(UserConfig(username, sub, Shamir.Share(id.value, value.value), serverKey.value))
  }

  function ParseUsers(raws: seq<Json>, nodeId: int): Result<seq<UserConfig>>
  {
    if raws == [] then Ok([])
    else
      match ParseUsers(Front(raws), nodeId)
      case Err(e) => Err(e)
      case Ok(users) =>
        match ParseUser(Last(raws), nodeId)
        case Err(e) => Err(e)
        case Ok(u) => Ok(users + [u])
  }

  function NamesOf(users: seq<UserConfig>): (r: seq<string>)
    ensures |r| == |users| && forall i :: 0 <= i < |r| ==> r[i] == users[i].username
  {
    seq(|users|, i requires 0 <= i < |users| => users[i].username)
  }

  // ---- The file ----------------------------------------------------------------------

  /** The checks of the decoded file, in order. */
  ghost function ConfigOf(raw: Json): Result<Config>
  {
    if !raw.Obj? then Err(NotAnObject)
    else
      var version := RequireInteger(Field(raw, "version"));
      if version.Err? then Err(version.error)
      else if version.value != CONFIG_VERSION then Err(BadVersion)
      else
        var nodeId := RequireInteger(Field(raw, "nodeId"));
        if nodeId.Err? then Err(nodeId.error)
        else if nodeId.value < 1 then Err(BadNodeId)
        else
          var threshold, total := RequireInteger(Field(raw, "threshold")), RequireInteger(Field(raw, "total"));
          if threshold.Err? then Err(threshold.error)
          else if total.Err? then Err(total.error)
          else if threshold.value < 1 || threshold.value > total.value then Err(BadThreshold)
          else if nodeId.value > total.value then Err(BadNodeId)
          else KeysOf(raw, nodeId.value, threshold.value, total.value)
  }

  ghost function KeysOf(raw: Json, nodeId: int, threshold: int, total: int): Result<Config>
  {
    var groupPublicKey, secretKeyShare := BytesField(Field(raw, "groupPublicKey"), 32),
      ScalarField(Field(raw, "secretKeyShare"));
    if groupPublicKey.Err? then Err(groupPublicKey.error)
    else if secretKeyShare.Err? then Err(secretKeyShare.error)
    else
      match Field(raw, "users")
      case Some(Arr(raws)) =>
        var users := ParseUsers(raws, nodeId);
        if users.Err? then Err(users.error)
        else if !Distinct(NamesOf(users.value)) then Err(DuplicateUsername)
        else Ok(Config(CONFIG_VERSION, nodeId, threshold, total, groupPublicKey.value, secretKeyShare.value,
                       users.value))
      case _ => Err(UsersNotAnArray)
  }

  ghost function Loaded(text: string): Result<Config>
  {
    match Parse(text) case None => Err(BadJson) case Some(raw) => ConfigOf(raw)
  }

  method ParseNodeConfig(text: string) returns (r: Result<Config>)
    ensures r == Loaded(text)
  {
    hide Parse, Find, BytesField, ScalarField, ParseUsers;
    match Parse(text)
    case None => return Err(BadJson);
    case Some(raw) =>
      if !raw.Obj? {
        return Err(NotAnObject);
      }
      var version := RequireInteger(Field(raw, "version"));
      if version.Err? {
        return Err(version.error);
      }
      if version.value != CONFIG_VERSION {
        return Err(BadVersion);
      }
      var nodeId := RequireInteger(Field(raw, "nodeId"));
      if nodeId.Err? {
        return Err(nodeId.error);
      }
      if nodeId.value < 1 {
        return Err(BadNodeId);
      }
      var threshold := RequireInteger(Field(raw, "threshold"));
      if threshold.Err? {
        return Err(threshold.error);
      }
      var total := RequireInteger(Field(raw, "total"));
      if total.Err? {
        return Err(total.error);
      }
      if threshold.value < 1 || threshold.value > total.value {
        return Err(BadThreshold);
      }
      if nodeId.value > total.value {
        return Err(BadNodeId);
      }
      r := ParseKeys(raw, nodeId.value, threshold.value, total.value);
  }

  method ParseKeys(raw: Json, nodeId: int, threshold: int, total: int) returns (r: Result<Config>)
    ensures r == KeysOf(raw, nodeId, threshold, total)
  {
    hide Find, BytesField, ScalarField, ParseUsers;
    var groupPublicKey := DecodeBytes(Field(raw, "groupPublicKey"), 32);
    if groupPublicKey.Err? {
      return Err(groupPublicKey.error);
    }
    var secretKeyShare := ScalarField(Field(raw, "secretKeyShare"));
    if secretKeyShare.Err? {
      return Err(secretKeyShare.error);
    }
    match Field(raw, "users")
    case Some(Arr(raws)) =>
      var users := ParseUsers(raws, nodeId);
      if users.Err? {
        return Err(users.error);
      }
      var unique := UniqueNames(users.value);
      if !unique {
        return Err(DuplicateUsername);
      }
      return Ok(Config(CONFIG_VERSION, nodeId, threshold, total, groupPublicKey.value, secretKeyShare.value,
                       users.value));
    case _ => return Err(UsersNotAnArray);
  }

  method UniqueNames(users: seq<UserConfig>) returns (unique: bool)
    ensures unique <==> Distinct(NamesOf(users))
  {
    var names: set<string> := {};
    for i := 0 to |users|
      invariant forall n :: n in names <==> exists k :: 0 <= k < i && users[k].username == n
      invariant Distinct(NamesOf(users)[..i])
    {
      if users[i].username in names {
        var k :| 0 <= k < i && users[k].username == users[i].username;
        assert NamesOf(users)[k] == NamesOf(users)[i];
        return false;
      }
      names := names + {users[i].username};
    }
    assert NamesOf(users)[..|users|] == NamesOf(users);
    return true;
  }
}
