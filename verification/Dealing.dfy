/**
 * What the dealer's files say: the shares in terms of the scalars drawn, that t - 1 files leave every
 * secret possible, and that t files determine it.
 */
module Dealing {
  import opened Arith
  import opened Seqs
  import opened Bytes
  import opened Interpolation
  import opened Suites
  import opened Dealer
  import Frost
  import Hex
  import Secrecy
  import Shamir
  import Toprf
  import Utf8

  // ---- The shares in the files -------------------------------------------------------

  /** The key share in the file of node id is the master secret plus the sum of draw k times id^k. */
  lemma KeyShareWritten(S: Suite, o: Options, e: Entropy, id: int)
    requires Order(S) > 0 && o.threshold >= 1
    ensures FileOf(S, o, e, id).secretKeyShare
            == Hex.NodeScalarToHex((e.masterSecret + Shamir.DrawSum(e.coefficients, o.threshold - 1, id)) % Order(S))
  {
    hide Eval, RecordsFor, Hex.NodeScalarToHex, Shamir.DrawSum;
    Shamir.EvalOfDraws(e.masterSecret, e.coefficients, o.threshold - 1, id);
  }

  /** The record of user j: its names, its share of the PRF key drawn for it, and its key at this node. */
  lemma RecordWritten(S: Suite, o: Options, e: Entropy, id: int, j: nat)
    requires Order(S) > 0 && o.threshold >= 1 && j < |o.users|
    ensures |FileOf(S, o, e, id).users| == |o.users|
    ensures var r, u, d := FileOf(S, o, e, id).users[j], o.users[j], e.users(j);
            && r.username == u.username && r.sub == u.sub && r.shareId == id
            && r.shareValue
               == Hex.NodeScalarToHex((d.masterKey + Shamir.DrawSum(d.coefficients, o.threshold - 1, id)) % Order(S))
            && r.serverKey == Hex.HexOf(Toprf.DeriveServerKey(S, Toprf.Prf(S, Utf8.Encode(u.password), d.masterKey),
                                                              id))
  {
    hide Eval, Hex.NodeScalarToHex, Shamir.DrawSum, Toprf.DeriveServerKey, Toprf.Prf, Hex.HexOf, RecordsFor,
      Utf8.Encode;
    RecordsAt(S, o, e, id, |o.users|, j);
    Shamir.EvalOfDraws(e.users(j).masterKey, e.users(j).coefficients, o.threshold - 1, id);
  }

  /** The group file and all node files of one run agree, and say what the options and the secret say. */
  lemma GroupFileAgrees(S: Suite, o: Options, e: Entropy)
    requires Order(S) > 0 && o.total >= 0
    ensures var g, key := GroupOf(S, o, e), Hex.HexOf(S.ed.mul(e.masterSecret, S.ed.base));
            && g == GroupFile(1, o.threshold, o.total, o.keyId, key)
            && |FilesOf(S, o, e, o.total)| == o.total
            && forall i :: 0 <= i < o.total ==>
                 var f := FilesOf(S, o, e, o.total)[i];
                 && f.nodeId == i + 1 && f.version == g.version && f.threshold == g.threshold && f.total == g.total
                 && f.groupPublicKey == g.groupPublicKey
  {
    hide Eval, RecordsFor, Hex.HexOf, FilesOf, HexScalar;
    forall i | 0 <= i < o.total
      ensures FilesOf(S, o, e, o.total)[i] == FileOf(S, o, e, i + 1)
    {
      FilesAt(S, o, e, o.total, i);
    }
  }

  // ---- t - 1 files -------------------------------------------------------------------

  /** Distinct node ids of one run. */
  ghost predicate NodeIdsOf(ids: seq<int>, total: int)
  {
    Distinct(ids) && forall i :: 0 <= i < |ids| ==> 1 <= ids[i] <= total
  }

  /** Draws that give the coefficients cs after the secret. */
  function DrawsOf(cs: seq<int>): nat -> int
  {
    (i: nat) => if i + 1 < |cs| then cs[i + 1] else 0
  }

  /** A random scalar, as the source draws them: reduced. */
  ghost predicate Drawable(random: nat -> int, p: int)
  {
    forall i: nat :: 0 <= random(i) < p
  }

  lemma DrawsOfCoefficients(cs: seq<int>, threshold: int, p: int)
    requires |cs| == threshold && threshold >= 1 && p > 0 && Secrecy.Residues(cs, p)
    ensures Frost.Coefficients(cs[0], threshold, DrawsOf(cs)) == cs && Drawable(DrawsOf(cs), p)
  {
    var ds := Frost.Coefficients(cs[0], threshold, DrawsOf(cs));
    forall i | 0 <= i < |cs|
      ensures ds[i] == cs[i]
    {
    }
  }

  /** Other draws that deal the same shares of another secret to t - 1 nodes. */
  lemma OtherDraws(secret: int, random: nat -> int, threshold: int, ids: seq<int>, other: int, p: int)
      returns (random': nat -> int)
    requires IsPrime(p) && threshold >= 1 && ValidIds(ids, p) && |ids| == threshold - 1 && 0 <= other < p
    ensures Drawable(random', p)
    ensures Secrecy.SameShares(Frost.Coefficients(secret, threshold, random),
                               Frost.Coefficients(other, threshold, random'), ids, p)
  {
    hide Secrecy.SameShares, IsPrime, ValidIds;
    var cs := Frost.Coefficients(secret, threshold, random);
    var cs' := Secrecy.AnySecretIsPossible(cs, ids, other, p);
    random' := DrawsOf(cs');
    DrawsOfCoefficients(cs', threshold, p);
  }

  /**
   * The files of any t - 1 nodes fit every master secret: with it, and some draws in place of those
   * made, the dealer writes the same files for these nodes, but for the public key.
   */
  lemma KeyFilesHide(S: Suite, o: Options, e: Entropy, ids: seq<int>, other: int) returns (e': Entropy)
    requires IsSuite(S) && 1 <= o.threshold && o.total < Order(S) && NodeIdsOf(ids, o.total)
    requires |ids| == o.threshold - 1 && 0 <= other < Order(S)
    ensures e'.masterSecret == other && e'.users == e.users && Drawable(e'.coefficients, Order(S)) && Order(S) > 0
    ensures forall i :: 0 <= i < |ids| ==>
              FileOf(S, o, e', ids[i])
              == FileOf(S, o, e, ids[i]).(groupPublicKey := Hex.HexOf(S.ed.mul(other, S.ed.base)))
  {
    hide IsSuite, IsPrime, Eval, Hex.HexOf, RecordFor, HexScalar, Frost.Coefficients, Drawable;
    OrderIsPrime(S);
    var random := OtherDraws(e.masterSecret, e.coefficients, o.threshold, ids, other, Order(S));
    e' := Entropy(other, random, e.users);
    SameRecords(S, o, e, e');
    forall i | 0 <= i < |ids|
      ensures FileOf(S, o, e', ids[i])
              == FileOf(S, o, e, ids[i]).(groupPublicKey := Hex.HexOf(S.ed.mul(other, S.ed.base)))
    {
      SameDigits(Eval(KeyPolynomial(o, e), ids[i]), Eval(KeyPolynomial(o, e'), ids[i]), Order(S));
    }
  }

  lemma SameDigits(m: int, n: int, p: int)
    requires p > 0 && m % p == n % p
    ensures HexScalar(m, p) == HexScalar(n, p)
  {
  }

  lemma SameRecords(S: Suite, o: Options, e: Entropy, e': Entropy)
    requires Order(S) > 0 && e.users == e'.users
    ensures forall id :: RecordsFor(S, o, e, id, |o.users|) == RecordsFor(S, o, e', id, |o.users|)
  {
    forall id
      ensures RecordsFor(S, o, e, id, |o.users|) == RecordsFor(S, o, e', id, |o.users|)
    {
      SameRecordsAt(S, o, e, e', id, |o.users|);
    }
  }

  lemma {:induction false} SameRecordsAt(S: Suite, o: Options, e: Entropy, e': Entropy, id: int, n: nat)
    requires Order(S) > 0 && e.users == e'.users && n <= |o.users|
    ensures RecordsFor(S, o, e, id, n) == RecordsFor(S, o, e', id, n)
  {
    hide Eval, HexScalar, Hex.HexOf, Toprf.DeriveServerKey, Toprf.Prf, Utf8.Encode, Frost.Coefficients;
    if n > 0 {
      SameRecordsAt(S, o, e, e', id, n - 1);
    }
  }

  /** And for every master secret there is only one choice of draws: each secret is as likely as any other. */
  lemma OnlyDraws(S: Suite, o: Options, e: Entropy, e': Entropy, ids: seq<int>, k: nat)
    requires IsSuite(S) && 1 <= o.threshold && o.total < Order(S) && NodeIdsOf(ids, o.total) && |ids| == o.threshold - 1
    requires e.masterSecret == e'.masterSecret && 0 <= e.masterSecret < Order(S)
    requires Drawable(e.coefficients, Order(S)) && Drawable(e'.coefficients, Order(S)) && Order(S) > 0
    requires forall i :: 0 <= i < |ids| ==>
               FileOf(S, o, e, ids[i]).secretKeyShare == FileOf(S, o, e', ids[i]).secretKeyShare
    requires k < o.threshold - 1
    ensures e.coefficients(k) == e'.coefficients(k)
  {
    hide IsSuite, IsPrime, Eval, RecordsFor, HexScalar;
    OrderIsPrime(S);
    var cs, cs' := KeyPolynomial(o, e), KeyPolynomial(o, e');
    forall i | 0 <= i < |ids|
      ensures Eval(cs', ids[i]) % Order(S) == Eval(cs, ids[i]) % Order(S)
    {
      DigitsTell(S, Eval(cs, ids[i]), Eval(cs', ids[i]));
    }
    Secrecy.OnlyOneExplanation(cs, cs', ids, Order(S));
    assert cs[k + 1] == e.coefficients(k) && cs'[k + 1] == e'.coefficients(k);
  }

  lemma DigitsTell(S: Suite, m: int, n: int)
    requires IsSuite(S) && Order(S) > 0 && HexScalar(m, Order(S)) == HexScalar(n, Order(S))
    ensures m % Order(S) == n % Order(S)
  {
    hide IsSuite, IsPrime, IsGroup, Hex.ScalarToHex, Hex.NodeScalarToHex, Hex.HexToScalar, Pow;
    OrderIsPrime(S);
    Hex.ScalarRoundTrip(m % Order(S));
    Hex.ScalarRoundTrip(n % Order(S));
  }

  /** The same for the PRF key of a user: t - 1 nodes hold shares of any PRF key whatever. */
  lemma PrfSharesHide(S: Suite, o: Options, e: Entropy, ids: seq<int>, j: nat, other: int) returns (e': Entropy)
    requires IsSuite(S) && 1 <= o.threshold && o.total < Order(S) && NodeIdsOf(ids, o.total) && j < |o.users|
    requires |ids| == o.threshold - 1 && 0 <= other < Order(S)
    ensures e'.masterSecret == e.masterSecret && e'.coefficients == e.coefficients && Order(S) > 0
    ensures e'.users(j).masterKey == other && e'.users(j).r == e.users(j).r
    ensures Drawable(e'.users(j).coefficients, Order(S)) && forall k: nat :: k != j ==> e'.users(k) == e.users(k)
    ensures forall i :: 0 <= i < |ids| ==>
              RecordFor(S, o, e', ids[i], j).shareValue == RecordFor(S, o, e, ids[i], j).shareValue
  {
    hide IsSuite, IsPrime, Eval, Hex.HexOf, HexScalar, Frost.Coefficients, Drawable, Toprf.DeriveServerKey, Toprf.Prf,
      Utf8.Encode;
    OrderIsPrime(S);
    var d := e.users(j);
    var random := OtherDraws(d.masterKey, d.coefficients, o.threshold, ids, other, Order(S));
    e' := e.(users := (k: nat) => if k == j then UserDraws(other, random, d.r) else e.users(k));
    forall i | 0 <= i < |ids|
      ensures RecordFor(S, o, e', ids[i], j).shareValue == RecordFor(S, o, e, ids[i], j).shareValue
    {
      SameDigits(Eval(ToprfPolynomial(o, e, j), ids[i]), Eval(ToprfPolynomial(o, e', j), ids[i]), Order(S));
    }
  }

  // ---- t files -----------------------------------------------------------------------

  /** The key share written in a file, read as the loader reads it. */
  function ShareIn(f: NodeFile): Shamir.Share
  {
    Shamir.Share(f.nodeId, match Hex.HexToScalar(f.secretKeyShare) case Ok(n) => n case Err(_) => 0)
  }

  /** The files of any t nodes determine the master secret: their shares combine to it. */
  lemma KeyFilesReveal(S: Suite, o: Options, e: Entropy, ids: seq<int>, files: seq<NodeFile>)
    requires IsSuite(S) && 1 <= o.threshold && o.total < Order(S) && NodeIdsOf(ids, o.total) && |ids| >= o.threshold
    requires Order(S) > 0 && |files| == |ids| && forall i :: 0 <= i < |ids| ==> files[i] == FileOf(S, o, e, ids[i])
    ensures Shamir.Combined(Map(ShareIn, files), Order(S)) == Ok(e.masterSecret % Order(S))
  {
    hide IsSuite, IsPrime, Eval, FileOf, Shamir.Weighted, Shamir.Invertible, ShareIn, Frost.Coefficients;
    OrderIsPrime(S);
    var shares := Map(ShareIn, files);
    forall i | 0 <= i < |ids|
      ensures shares[i].id == ids[i] && shares[i].value % Order(S) == Eval(KeyPolynomial(o, e), ids[i]) % Order(S)
    {
      ShareReadBack(S, o, e, ids[i]);
    }
    assert Shamir.Ids(shares) == ids;
    Shamir.AnyQuorumReconstructs(shares, KeyPolynomial(o, e), Order(S));
  }

  lemma ShareReadBack(S: Suite, o: Options, e: Entropy, id: int)
    requires IsSuite(S) && Order(S) > 0
    ensures ShareIn(FileOf(S, o, e, id)) == Shamir.Share(id, Eval(KeyPolynomial(o, e), id) % Order(S))
    ensures ShareIn(FileOf(S, o, e, id)).value % Order(S) == Eval(KeyPolynomial(o, e), id) % Order(S)
  {
    hide IsSuite, IsPrime, IsGroup, Eval, RecordsFor, Hex.ScalarToHex, Hex.NodeScalarToHex, Hex.HexToScalar, Pow,
      KeyPolynomial;
    OrderIsPrime(S);
    Hex.ScalarRoundTrip(Eval(KeyPolynomial(o, e), id) % Order(S));
    ModSelf(Eval(KeyPolynomial(o, e), id), Order(S));
  }
}
