/**
 * The assumptions on the libraries are consistent: over any prime of at most 32 bytes the integers
 * modulo it, a transparent sealing and the readers of this project make a suite.
 */
module Consistency {
  import opened Arith
  import opened Seqs
  import opened Bytes
  import opened Json
  import opened Suites
  import Utf8
  import Base64Url

  /** A residue as a point. */
  function Point(n: int, p: int): Bytes
    requires p > 0
  {
    LeBytes(n % p, 32)
  }

  function Residues(p: int): Group
    requires p > 0
  {
    Group(p, Point(0, p), Point(1, p),
          (x: Bytes) => |x| == 32 && LeValue(x) < p,
          (x: Bytes, y: Bytes) => Point(LeValue(x) + LeValue(y), p),
          (a: int, x: Bytes) => Point(a * LeValue(x), p))
  }

  lemma PointValue(n: int, p: int)
    requires 0 < p <= Pow(256, 32)
    ensures LeValue(Point(n, p)) == n % p && |Point(n, p)| == 32
  {
    LeValueOfBytes(n % p, 32);
  }

  lemma PointOfValue(x: Bytes, p: int)
    requires p > 0 && |x| == 32 && LeValue(x) < p
    ensures Point(LeValue(x), p) == x
  {
    ModUnique(LeValue(x), 0, LeValue(x), p);
    LeBytesOfValue(x);
  }

  lemma ResiduesAreGroup(p: int)
    requires IsPrime(p) && p <= Pow(256, 32)
    ensures IsGroup(Residues(p))
  {
    hide LeBytes, LeValue, Pow;
    var G := Residues(p);
    PointValue(0, p);
    PointValue(1, p);
    forall x
      ensures UnitLaw(G, x)
    {
      UnitHolds(p, x);
    }
    forall x, y, z
      ensures AddLaw(G, x, y, z)
    {
      AddHolds(p, x, y, z);
    }
    forall a, b, x
      ensures MulLaw(G, a, b, x)
    {
      MulHolds(p, a, b, x);
    }
    forall a, x, y
      ensures DistributeLaw(G, a, x, y)
    {
      DistributeHolds(p, a, x, y);
    }
  }

  lemma UnitHolds(p: int, x: Bytes)
    requires 1 < p <= Pow(256, 32)
    ensures UnitLaw(Residues(p), x)
  {
    hide LeBytes, LeValue, Pow;
    if |x| == 32 && LeValue(x) < p {
      var n := LeValue(x);
      PointValue(0, p);
      PointOfValue(x, p);
      ModUnique(0, 0, 0, p);
      ModUnique(p * n, n, 0, p);
    }
  }

  lemma AddHolds(p: int, x: Bytes, y: Bytes, z: Bytes)
    requires 0 < p <= Pow(256, 32)
    ensures AddLaw(Residues(p), x, y, z)
  {
    hide LeBytes, LeValue, Pow;
    var a, b, c := LeValue(x), LeValue(y), LeValue(z);
    PointValue(a + b, p);
    PointValue(b + c, p);
    ModSelf(a + b, p);
    ModSelf(b + c, p);
    Cong((a + b) % p, a + b, c, c, p);
    Cong(a, a, (b + c) % p, b + c, p);
  }

  lemma MulHolds(p: int, a: int, b: int, x: Bytes)
    requires 0 < p <= Pow(256, 32)
    ensures MulLaw(Residues(p), a, b, x)
  {
    hide LeBytes, LeValue, Pow;
    var n := LeValue(x);
    PointValue(a * n, p);
    PointValue(b * n, p);
    ScalarsCombine(a, b, n, p);
    assert Point((a + b) * n, p) == Point((a * n) % p + (b * n) % p, p);
    assert Point((a * b) * n, p) == Point(a * ((b * n) % p), p);
  }

  lemma ScalarsCombine(a: int, b: int, n: int, p: int)
    requires p > 0
    ensures ((a + b) * n) % p == ((a * n) % p + (b * n) % p) % p
    ensures ((a * b) * n) % p == (a * ((b * n) % p)) % p
    ensures ((a * n) % p) % p == (a * n) % p
  {
    ModSelf(a * n, p);
    ModSelf(b * n, p);
    Cong((a * n) % p, a * n, (b * n) % p, b * n, p);
    assert (a + b) * n == a * n + b * n;
    CongMul(a, (b * n) % p, b * n, p);
    assert a * (b * n) == (a * b) * n;
  }

  lemma DistributeHolds(p: int, a: int, x: Bytes, y: Bytes)
    requires 0 < p <= Pow(256, 32)
    ensures DistributeLaw(Residues(p), a, x, y)
  {
    hide LeBytes, LeValue, Pow;
    var m, n := LeValue(x), LeValue(y);
    PointValue(m + n, p);
    PointValue(a * m, p);
    PointValue(a * n, p);
    ModSelf(m + n, p);
    CongMul(a, (m + n) % p, m + n, p);
    ModSelf(a * m, p);
    ModSelf(a * n, p);
    Cong((a * m) % p, a * m, (a * n) % p, a * n, p);
    assert a * (m + n) == a * m + a * n;
  }

  // ---- Sealing -----------------------------------------------------------------------

  function Zeros(n: nat): (b: Bytes)
    ensures |b| == n
  {
    seq(n, i => 0)
  }

  function Unbinary(s: string): Bytes
  {
    seq(|s|, i requires 0 <= i < |s| => ToByte(s[i] as int))
  }

  lemma BinaryRoundTrip(b: Bytes)
    ensures Unbinary(Base64Url.Binary(b)) == b
  {
  }

  function ReadText(b: Bytes): Option<Json>
  {
    match Utf8.Decode(b)
    case None => None
    case Some(s) => Parse(s)
  }

  lemma ReadsText(v: Json)
    requires WellFormed(v)
    ensures ReadText(Utf8.Encode(Text(v))) == Some(v)
  {
    Utf8.RoundTrip(Text(v));
    ParseUndoesText(v);
  }

  function Letter(key: Bytes, nonce: Bytes, text: Bytes, aad: Bytes): Json
  {
    Arr([Str(Base64Url.Binary(key)), Str(Base64Url.Binary(nonce)), Str(Base64Url.Binary(aad)),
         Str(Base64Url.Binary(text))])
  }

  /** A ciphertext that names everything it was made from. */
  function Seal(key: Bytes, nonce: Bytes, text: Bytes, aad: Bytes): Bytes
  {
    Utf8.Encode(Text(Letter(key, nonce, text, aad)))
  }

  function Open(key: Bytes, nonce: Bytes, ct: Bytes, aad: Bytes): Option<Bytes>
  {
    match ReadText(ct)
    case Some(Arr(items)) =>
      if |items| == 4 && items[3].Str? && Arr(items) == Letter(key, nonce, Unbinary(items[3].s), aad)
        then Some(Unbinary(items[3].s))
      else None
    case _ => None
  }

  lemma OpensExactly(key: Bytes, nonce: Bytes, text: Bytes, aad: Bytes, key': Bytes, nonce': Bytes, aad': Bytes)
    ensures Open(key', nonce', Seal(key, nonce, text, aad), aad')
            == if key' == key && nonce' == nonce && aad' == aad then Some(text) else None
  {
    hide Utf8.Encode, Text, ReadText;
    var v := Letter(key, nonce, text, aad);
    assert WellFormed(v) by {
      assert forall i :: 0 <= i < |v.items| ==> v.items[i].Str?;
    }
    ReadsText(v);
    BinaryRoundTrip(text);
    SameLetter(key, nonce, text, aad, key', nonce', aad');
  }

  lemma SameLetter(key: Bytes, nonce: Bytes, text: Bytes, aad: Bytes, key': Bytes, nonce': Bytes, aad': Bytes)
    ensures Letter(key, nonce, text, aad) == Letter(key', nonce', text, aad')
            <==> key' == key && nonce' == nonce && aad' == aad
  {
    BinaryRoundTrip(key);
    BinaryRoundTrip(key');
    BinaryRoundTrip(nonce);
    BinaryRoundTrip(nonce');
    BinaryRoundTrip(aad);
    BinaryRoundTrip(aad');
    hide Unbinary, Base64Url.Binary;
    if Letter(key, nonce, text, aad) == Letter(key', nonce', text, aad') {
      var a, b := Letter(key, nonce, text, aad).items, Letter(key', nonce', text, aad').items;
      assert a[0] == b[0] && a[1] == b[1] && a[2] == b[2];
    }
  }

  // ---- The suite ---------------------------------------------------------------------

  function ToNumber(v: Json): Option<int> { if v.Num? then Some(v.n) else None }

  function ToBigInt(v: Json): Option<int>
  {
    if v.Str? then match Parse(v.s) case Some(w) => ToNumber(w) case None => None
    else None
  }

  function Unbase64(s: string): Bytes
  {
    match Base64Url.UrlDecode(s) case Some(b) => b case None => []
  }

  function PlainSuite(p: int): Suite
    requires p > 0
  {
    Suite(Residues(p), Residues(p), b => Zeros(64), b => Zeros(32), b => Point(1, p), Seal, Open, ReadText, Unbase64,
          ToNumber, ToBigInt, s => s)
  }

  lemma SealingLaws(p: int)
    requires IsPrime(p) && p <= Pow(256, 32)
    ensures forall b :: HashLaw(PlainSuite(p), b)
    ensures forall k, n, m, a, k', n', a' :: SealLaw(PlainSuite(p), k, n, m, a, k', n', a')
  {
    assert p > 0;
    hide Residues, Seal, Open, ReadText, Unbase64, ToBigInt, Zeros, Pow, LeBytes, IsPrime;
    forall b
      ensures HashLaw(PlainSuite(p), b)
    {
      BaseIsValid(p);
    }
    forall k, n, m, a, k', n', a'
      ensures SealLaw(PlainSuite(p), k, n, m, a, k', n', a')
    {
      OpensExactly(k, n, m, a, k', n', a');
    }
  }

  lemma ReadingLaws(p: int)
    requires p > 0
    ensures forall v :: ParseLaw(PlainSuite(p), v)
    ensures forall b :: Base64Law(PlainSuite(p), b)
    ensures forall n :: NumberLaw(PlainSuite(p), n)
    ensures forall n :: BigIntLaw(PlainSuite(p), n)
  {
    hide Residues, Seal, Open, ReadText, Unbase64, ToBigInt, Pow, LeBytes, Utf8.Encode, Text, Base64Url.UrlEncode,
      NumText;
    var S := PlainSuite(p);
    forall v
      ensures ParseLaw(S, v)
    {
      if WellFormed(v) {
        ReadsText(v);
      }
    }
    forall b
      ensures Base64Law(S, b)
    {
      DecodesOwn(b);
    }
    forall n
      ensures BigIntLaw(S, n)
    {
      ReadsOwnNumber(n);
    }
  }

  /** Every prime of at most 32 bytes is the order of some suite. */
  lemma SuiteExists(p: int)
    requires IsPrime(p) && p <= Pow(256, 32)
    ensures IsSuite(PlainSuite(p)) && Order(PlainSuite(p)) == p
  {
    hide *;
    PlainFields(p);
    ResiduesAreGroup(p);
    OrderOfResidues(p);
    SealingLaws(p);
    ReadingLaws(p);
    LawsMakeSuite(PlainSuite(p));
  }

  lemma PlainFields(p: int)
    requires IsPrime(p)
    ensures p > 0
    ensures var S := PlainSuite(p);
            && S.ed == S.ristretto == Residues(p) && Order(S) == Residues(p).order
            && (forall s :: UpperLaw(S, s))
  {
    hide Residues;
  }

  lemma LawsMakeSuite(S: Suite)
    requires IsGroup(S.ed) && S.ristretto == S.ed && S.ed.order <= Pow(256, 32) && forall s :: UpperLaw(S, s)
    requires forall b :: HashLaw(S, b)
    requires forall k, n, m, a, k', n', a' :: SealLaw(S, k, n, m, a, k', n', a')
    requires (forall v :: ParseLaw(S, v)) && (forall b :: Base64Law(S, b))
    requires (forall n :: NumberLaw(S, n)) && (forall n :: BigIntLaw(S, n))
    ensures IsSuite(S)
  {
    hide IsGroup, HashLaw, SealLaw, ParseLaw, Base64Law, NumberLaw, BigIntLaw, UpperLaw, Pow;
  }

  lemma OrderOfResidues(p: int)
    requires p > 0
    ensures Residues(p).order == p
  {
  }

  lemma BaseIsValid(p: int)
    requires IsPrime(p) && p <= Pow(256, 32)
    ensures Residues(p).valid(Point(1, p))
  {
    PointValue(1, p);
  }

  lemma DecodesOwn(b: Bytes)
    ensures Unbase64(Base64Url.UrlEncode(b)) == b
  {
    Base64Url.RoundTrip(b);
  }

  lemma ReadsOwnNumber(n: int)
    ensures ToBigInt(Str(NumText(n))) == Some(n)
  {
    ParseUndoesText(Num(n));
  }

  /** And there is such a prime. */
  lemma SomeSuite()
    ensures exists S: Suite :: IsSuite(S)
  {
    assert Pow(256, 32) >= 2 by { PowGrows(32); }
    assert IsPrime(2);
    SuiteExists(2);
  }

  lemma {:induction false} PowGrows(e: nat)
    requires e > 0
    ensures Pow(256, e) >= 256
  {
    if e > 1 {
      PowGrows(e - 1);
    }
  }
}
