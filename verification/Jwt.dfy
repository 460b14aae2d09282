/** Signing inputs, assembly and verification of JWTs, as in projects/node/src/jwt/jwt.ts. */
module Jwt {
  import opened Arith
  import opened Seqs
  import opened Bytes
  import opened Json
  import opened CanonicalJson
  import opened Suites
  import opened Frost
  import Utf8
  import Base64Url

  /** One base64url segment of a JWT. */
  function Segment(v: Json): string { Base64Url.UrlEncode(Utf8.Encode(Stringify(v))) }

  function SigningText(headerB64: string, payloadB64: string): string { headerB64 + "." + payloadB64 }

  /** createSigningInput: the bytes that are signed, a function of the two values alone. */
  function SigningInput(header: Json, payload: Json): Bytes
  {
    Utf8.Encode(SigningText(Segment(header), Segment(payload)))
  }

  /** assembleJwt */
  function Assemble(headerB64: string, payloadB64: string, signature: Bytes): string
  {
    headerB64 + "." + payloadB64 + "." + Base64Url.UrlEncode(signature)
  }

  // ---- Splitting at dots -------------------------------------------------------------

  predicate NoDot(s: string)
  {
    forall i :: 0 <= i < |s| ==> s[i] != '.'
  }

  /** String.prototype.split(".") */
  function SplitDots(s: string): (parts: seq<string>)
    ensures parts != []
  {
    if s == "" then [""]
    else if s[0] == '.' then [""] + SplitDots(s[1..])
    else
      var r := SplitDots(s[1..]);
      [[s[0]] + r[0]] + r[1..]
  }

  lemma {:induction false} SplitNoDot(s: string)
    requires NoDot(s)
    ensures SplitDots(s) == [s]
  {
    if s != "" {
      SplitNoDot(s[1..]);
      assert [s[0]] + s[1..] == s;
    }
  }

  lemma {:induction false} SplitFirst(a: string, rest: string)
    requires NoDot(a)
    ensures SplitDots(a + "." + rest) == [a] + SplitDots(rest)
  {
    var s := a + "." + rest;
    if a == "" {
      assert s == "." + rest;
      assert s[1..] == rest;
    } else {
      SplitFirst(a[1..], rest);
      assert s[1..] == a[1..] + "." + rest;
      assert [a[0]] + a[1..] == a;
      assert SplitDots(s[1..])[1..] == SplitDots(rest);
    }
  }

  /** Joining the parts again gives the text that was split. */
  function JoinDots(parts: seq<string>): string
  {
    if |parts| == 0 then ""
    else if |parts| == 1 then parts[0]
    else parts[0] + "." + JoinDots(parts[1..])
  }

  lemma {:induction false} JoinOfSplit(s: string)
    ensures JoinDots(SplitDots(s)) == s
  {
    if s != "" {
      JoinOfSplit(s[1..]);
      var r := SplitDots(s[1..]);
      if s[0] == '.' {
        assert ([""] + r)[1..] == r;
      } else {
        var t := [[s[0]] + r[0]] + r[1..];
        assert t[1..] == r[1..];
      }
    }
  }

  lemma {:induction false} SplitPartsPlain(s: string)
    ensures forall i :: 0 <= i < |SplitDots(s)| ==> NoDot(SplitDots(s)[i])
  {
    if s != "" {
      SplitPartsPlain(s[1..]);
    }
  }

  lemma SegmentPlain(v: Json)
    ensures NoDot(Segment(v))
  {
    Base64Url.UrlEncodeIsLetters(Utf8.Encode(Stringify(v)));
  }

  /** An assembled token splits into exactly its three parts. */
  lemma AssembledSplits(header: Json, payload: Json, signature: Bytes)
    ensures SplitDots(Assemble(Segment(header), Segment(payload), signature))
            == [Segment(header), Segment(payload), Base64Url.UrlEncode(signature)]
  {
    hide Segment;
    var h, p, s := Segment(header), Segment(payload), Base64Url.UrlEncode(signature);
    SegmentPlain(header);
    SegmentPlain(payload);
    Base64Url.UrlEncodeIsLetters(signature);
    assert Assemble(h, p, signature) == h + "." + (p + "." + s);
    SplitFirst(h, p + "." + s);
    SplitFirst(p, s);
    SplitNoDot(s);
  }

  // ---- Injectivity -------------------------------------------------------------------

  /** Two texts of two dot-free halves are equal only half by half. */
  lemma HalvesEqual(a: string, b: string, c: string, d: string)
    requires NoDot(a) && NoDot(b) && NoDot(c) && NoDot(d) && SigningText(a, b) == SigningText(c, d)
    ensures a == c && b == d
  {
    SplitFirst(a, b);
    SplitFirst(c, d);
    SplitNoDot(b);
    SplitNoDot(d);
    assert ([a] + [b])[0] == a && ([a] + [b])[1] == b;
    assert ([c] + [d])[0] == c && ([c] + [d])[1] == d;
  }

  lemma SegmentExact(v: Json, w: Json)
    requires WellFormed(v) && WellFormed(w)
    ensures Segment(v) == Segment(w) <==> Meaning(v) == Meaning(w)
  {
    hide Stringify, Meaning;
    StringifyExact(v, w);
    if Segment(v) == Segment(w) {
      Base64Url.Injective(Utf8.Encode(Stringify(v)), Utf8.Encode(Stringify(w)));
      Utf8.Injective(Stringify(v), Stringify(w));
    }
  }

  /** The signing input determines header and payload, and depends on nothing else. */
  lemma SigningInputExact(h: Json, p: Json, h': Json, p': Json)
    requires WellFormed(h) && WellFormed(p) && WellFormed(h') && WellFormed(p')
    ensures SigningInput(h, p) == SigningInput(h', p') <==> Meaning(h) == Meaning(h') && Meaning(p) == Meaning(p')
  {
    hide Segment, Meaning;
    SegmentExact(h, h');
    SegmentExact(p, p');
    if SigningInput(h, p) == SigningInput(h', p') {
      Utf8.Injective(SigningText(Segment(h), Segment(p)), SigningText(Segment(h'), Segment(p')));
      SegmentPlain(h);
      SegmentPlain(p);
      SegmentPlain(h');
      SegmentPlain(p');
      HalvesEqual(Segment(h), Segment(p), Segment(h'), Segment(p'));
    }
  }

  // ---- Verification ------------------------------------------------------------------

  datatype Verified = Verified(header: Json, payload: Json)

  /** What the source language takes for true in a condition. */
  predicate Truthy(v: Json)
  {
    match v
    case Null => false
    case Bool(b) => b
    case Num(n) => n != 0
    case Str(s) => s != ""
    case _ => true
  }

  /** payload.exp && payload.exp < now */
  function Expired(S: Suite, payload: Json, now: int): bool
  {
    match Field(payload, "exp")
    case None => false
    case Some(v) => Truthy(v) && S.toNumber(v).Some? && S.toNumber(v).value < now
  }

  function VerifyJwt(S: Suite, token: string, publicKey: Bytes, now: int): Result<Verified>
    requires Order(S) > 0
  {
    var parts := SplitDots(token);
    if |parts| != 3 then Err(MalformedJwt)
    else
      match (S.parse(S.unbase64(parts[0])), S.parse(S.unbase64(parts[1])))
      case (Some(header), Some(payload)) =>
        if header.Null? then Err(BadJson)
        else if Field(header, "alg") != Some(Str("EdDSA")) then Err(UnsupportedAlg)
        else if !Verifies(S, S.unbase64(parts[2]), Utf8.Encode(SigningText(parts[0], parts[1])), publicKey)
        then Err(InvalidSignature)
        else if payload.Null? then Err(BadJson)
        else if Expired(S, payload, now) then Err(TokenExpired)
        else Ok(Verified(header, payload))
      case (_, _) => Err(BadJson)
  }

  /** The signed text of a token: everything before its second dot. */
  function SignedBytes(token: string): Option<Bytes>
  {
    var parts := SplitDots(token);
    if |parts| == 3 then Some(Utf8.Encode(SigningText(parts[0], parts[1]))) else None
  }

  lemma SegmentReads(S: Suite, v: Json)
    requires IsSuite(S) && WellFormed(v)
    ensures S.parse(S.unbase64(Segment(v))) == Some(Canon(v))
  {
    CanonIsCanonical(v);
    CanonicalWellFormed(Canon(v));
    assert Base64Law(S, Utf8.Encode(Stringify(v)));
    assert ParseLaw(S, Canon(v));
  }

  /** A token over a known signing input is read back as the values that were signed. */
  lemma VerifiedContents(S: Suite, token: string, publicKey: Bytes, now: int, header: Json, payload: Json)
    requires IsSuite(S) && WellFormed(header) && WellFormed(payload)
    requires SignedBytes(token) == Some(SigningInput(header, payload))
    requires VerifyJwt(S, token, publicKey, now).Ok?
    ensures VerifyJwt(S, token, publicKey, now).value == Verified(Canon(header), Canon(payload))
    ensures !Expired(S, Canon(payload), now)
  {
    hide Segment, Canon, IsSuite, Expired;
    var parts := SplitDots(token);
    Utf8.Injective(SigningText(parts[0], parts[1]), SigningText(Segment(header), Segment(payload)));
    JoinOfSplit(token);
    SplitPartsPlain(token);
    SegmentPlain(header);
    SegmentPlain(payload);
    HalvesEqual(parts[0], parts[1], Segment(header), Segment(payload));
    SegmentReads(S, header);
    SegmentReads(S, payload);
  }

  /** A well-signed, unexpired token of this group is accepted. */
  lemma AssembledVerifies(S: Suite, header: Json, payload: Json, signature: Bytes, publicKey: Bytes, now: int)
    requires IsSuite(S) && WellFormed(header) && WellFormed(payload) && header.Obj? && payload.Obj?
    requires Field(header, "alg") == Some(Str("EdDSA"))
    requires Verifies(S, signature, SigningInput(header, payload), publicKey)
    requires !Expired(S, Canon(payload), now)
    ensures VerifyJwt(S, Assemble(Segment(header), Segment(payload), signature), publicKey, now)
            == Ok(Verified(Canon(header), Canon(payload)))
    ensures SignedBytes(Assemble(Segment(header), Segment(payload), signature)) == Some(SigningInput(header, payload))
  {
    CanonField(header, "alg");
    AssembledSplits(header, payload, signature);
    SegmentReads(S, header);
    SegmentReads(S, payload);
    assert Base64Law(S, signature);
    hide Segment, IsSuite, Verifies, Expired, Assemble, Find;
  }
}
