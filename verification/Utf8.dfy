/** Text as UTF-8 bytes: what TextEncoder writes, and a strict reading of it (RFC 3629). */
module Utf8 {
  import opened Seqs
  import opened Bytes

  function EncodeChar(c: char): (b: Bytes)
    ensures 1 <= |b| <= 4
  {
    var n := c as int;
    if n < 0x80 then [n]
    else if n < 0x800 then [0xC0 + n / 64, 0x80 + n % 64]
    else if n < 0x1_0000 then [0xE0 + n / 4096, 0x80 + n / 64 % 64, 0x80 + n % 64]
    else [0xF0 + n / 262144, 0x80 + n / 4096 % 64, 0x80 + n / 64 % 64, 0x80 + n % 64]
  }

  function Encode(s: string): Bytes
  {
    if s == "" then [] else EncodeChar(s[0]) + Encode(s[1..])
  }

  /** How many bytes a character that starts with byte b takes. */
  function Width(b: byte): nat
  {
    if b < 0x80 then 1 else if b < 0xE0 then 2 else if b < 0xF0 then 3 else 4
  }

  /** The code point that the payload bits of the first character spell. */
  function Payload(b: Bytes): int
    requires b != [] && |b| >= Width(b[0])
  {
    var lead: int := b[0];
    if lead < 0x80 then lead
    else if lead < 0xE0 then (lead - 0xC0) * 64 + Low(b[1])
    else if lead < 0xF0 then (lead - 0xE0) * 4096 + Low(b[1]) * 64 + Low(b[2])
    else (lead - 0xF0) * 262144 + Low(b[1]) * 4096 + Low(b[2]) * 64 + Low(b[3])
  }

  /** The payload of a continuation byte. */
  function Low(n: int): int { n - 0x80 }

  predicate IsScalar(n: int)
  {
    0 <= n < 0xD800 || 0xE000 <= n < 0x11_0000
  }

  /** The first character, if the bytes start with the shortest encoding of one. */
  function FirstChar(b: Bytes): Option<char>
    requires b != []
  {
    var w := Width(b[0]);
    if |b| < w || !IsScalar(Payload(b)) then None
    else
      var c := Payload(b) as char;
      if EncodeChar(c) == b[..w] then Some(c) else None
  }

  function Decode(b: Bytes): Option<string>
    decreases |b|
  {
    if b == [] then Some("")
    else
      match FirstChar(b)
      case None => None
      case Some(c) =>
        match Decode(b[Width(b[0])..])
        case None => None
        case Some(s) => Some([c] + s)
  }

  lemma PayloadOfEncoding(c: char)
    ensures var e := EncodeChar(c); Width(e[0]) == |e| && Payload(e) == c as int
  {
    var n := c as int;
    if n >= 0x80 {
      assert n == n / 64 * 64 + n % 64;
      assert n / 64 == n / 4096 * 64 + n / 64 % 64;
      assert n / 4096 == n / 262144 * 64 + n / 4096 % 64;
    }
  }

  lemma FirstCharOfEncoding(c: char, rest: Bytes)
    ensures var b := EncodeChar(c) + rest;
            FirstChar(b) == Some(c) && Width(b[0]) == |EncodeChar(c)| && b[Width(b[0])..] == rest
  {
    PayloadOfEncoding(c);
    var e := EncodeChar(c);
    var b := e + rest;
    hide EncodeChar;
    assert forall i :: 0 <= i < |e| ==> b[i] == e[i];
    assert b[..|e|] == e && b[|e|..] == rest;
    assert Payload(b) == Payload(e);
  }

  /** Reading back what was written. */
  lemma {:induction false} RoundTrip(s: string)
    ensures Decode(Encode(s)) == Some(s)
  {
    if s != "" {
      FirstCharOfEncoding(s[0], Encode(s[1..]));
      RoundTrip(s[1..]);
      assert [s[0]] + s[1..] == s;
    }
  }

  lemma Injective(s: string, t: string)
    requires Encode(s) == Encode(t)
    ensures s == t
  {
    RoundTrip(s);
    RoundTrip(t);
  }

  /** Plain ASCII text takes one byte per character. */
  lemma {:induction false} EncodeAscii(s: string)
    requires forall i :: 0 <= i < |s| ==> s[i] as int < 0x80
    ensures |Encode(s)| == |s| && forall i :: 0 <= i < |s| ==> Encode(s)[i] == s[i] as int
  {
    if s != "" {
      EncodeAscii(s[1..]);
      assert EncodeChar(s[0]) == [s[0] as int];
    }
  }
}
