/**
 * base64url without padding, as projects/demo/src/sdk/jwt.ts builds it on top of btoa and atob
 * (sections 4 and 5 of RFC 4648).
 */
module Base64Url {
  import opened Seqs
  import opened Bytes

  /** Neither a URL-safe replacement, nor padding, nor a dot, nor a space. */
  predicate IsPlain(c: char) { c != '-' && c != '_' && c != '=' && c != '.' && 32 < c as int < 0x80 }

  predicate AllPlain(s: string) { forall i :: 0 <= i < |s| ==> IsPlain(s[i]) }

  /** The standard alphabet: A-Z a-z 0-9 + / */
  function Letter(n: sextet): (c: char)
    ensures IsPlain(c)
  {
    if n < 26 then (n + 65) as char
    else if n < 52 then (n + 71) as char
    else if n < 62 then (n - 4) as char
    else if n == 62 then '+' else '/'
  }

  function LetterValue(c: char): Option<sextet>
  {
    if 'A' <= c <= 'Z' then Some(c as int - 65)
    else if 'a' <= c <= 'z' then Some(c as int - 71)
    else if '0' <= c <= '9' then Some(c as int + 4)
    else if c == '+' then Some(62)
    else if c == '/' then Some(63)
    else None
  }

  lemma LetterRoundTrip(n: sextet)
    ensures LetterValue(Letter(n)) == Some(n)
  {
  }

  /** The alphabet of table 1 of RFC 4648. */
  lemma LetterTable(n: sextet)
    ensures n < 26 ==> Letter(n) == "ABCDEFGHIJKLMNOPQRSTUVWXYZ"[n]
    ensures 26 <= n < 52 ==> Letter(n) == "abcdefghijklmnopqrstuvwxyz"[n - 26]
    ensures 52 <= n ==> Letter(n) == "0123456789+/"[n - 52]
  {
  }

  // ---- Cutting three bytes into four sextets -----------------------------------------

  type sextet = x: int | 0 <= x < 64

  function Sextet0(x: byte): sextet { x / 4 }

  function Sextet1(x: byte, y: byte): sextet { x % 4 * 16 + y / 16 }

  function Sextet2(y: byte, z: byte): sextet { y % 16 * 4 + z / 64 }

  function Sextet3(z: byte): sextet { z % 64 }

  function Byte0(u: sextet, v: sextet): byte { u * 4 + v / 16 }

  function Byte1(v: sextet, w: sextet): byte { v % 16 * 16 + w / 4 }

  function Byte2(w: sextet, x: sextet): byte { w % 4 * 64 + x }

  /** Four sextets and the three bytes they are cut from spell one number, highest part first. */
  lemma GroupValue(x: byte, y: byte, z: byte)
    ensures Sextet0(x) * 262144 + Sextet1(x, y) * 4096 + Sextet2(y, z) * 64 + Sextet3(z) == x * 65536 + y * 256 + z
  {
  }

  lemma Reassemble(x: byte, y: byte, z: byte)
    ensures Byte0(Sextet0(x), Sextet1(x, y)) == x
    ensures Byte1(Sextet1(x, y), Sextet2(y, z)) == y
    ensures Byte2(Sextet2(y, z), Sextet3(z)) == z
  {
  }

  // ---- btoa and atob -----------------------------------------------------------------

  /** The letters of a byte string, without the padding. */
  function Letters(b: Bytes): (s: string)
  {
    if |b| == 0 then ""
    else if |b| == 1 then [Letter(Sextet0(b[0])), Letter(Sextet1(b[0], 0))]
    else if |b| == 2 then [Letter(Sextet0(b[0])), Letter(Sextet1(b[0], b[1])), Letter(Sextet2(b[1], 0))]
    else Quad(b[0], b[1], b[2]) + Letters(b[3..])
  }

  function Quad(x: byte, y: byte, z: byte): (s: string)
    ensures |s| == 4
  {
    [Letter(Sextet0(x)), Letter(Sextet1(x, y)), Letter(Sextet2(y, z)), Letter(Sextet3(z))]
  }

  lemma {:induction false} LettersPlain(b: Bytes)
    ensures AllPlain(Letters(b))
    ensures |Letters(b)| % 4 == if |b| % 3 == 0 then 0 else |b| % 3 + 1
  {
    hide IsPlain, Letter, Sextet0, Sextet1, Sextet2, Sextet3;
    if |b| >= 3 {
      LettersPlain(b[3..]);
      assert AllPlain(Quad(b[0], b[1], b[2]));
    }
  }

  function Repeat(c: char, n: nat): (s: string)
    ensures |s| == n && forall i :: 0 <= i < n ==> s[i] == c
  {
    seq(n, i => c)
  }

  function Padding(b: Bytes): string
  {
    Repeat('=', (3 - |b| % 3) % 3)
  }

  function Btoa(b: Bytes): string
  {
    Letters(b) + Padding(b)
  }

  /** btoa pads to complete groups of four. */
  lemma BtoaLength(b: Bytes)
    ensures |Btoa(b)| == (|b| + 2) / 3 * 4
    ensures forall i :: |Btoa(b)| - (3 - |b| % 3) % 3 <= i < |Btoa(b)| ==> Btoa(b)[i] == '='
  {
    hide Letters;
    LetterCount(b);
  }

  lemma {:induction false} LetterCount(b: Bytes)
    ensures |Letters(b)| + (3 - |b| % 3) % 3 == (|b| + 2) / 3 * 4
  {
    hide Letter, Sextet0, Sextet1, Sextet2, Sextet3;
    if |b| >= 3 {
      LetterCount(b[3..]);
    }
  }

  /** Decodes complete groups of four letters and a last group of two or three. */
  function FromLetters(s: string): Option<Bytes>
  {
    if |s| == 0 then Some([])
    else if |s| == 1 then None
    else
      match (LetterValue(s[0]), LetterValue(s[1]))
      case (Some(u), Some(v)) =>
        if |s| == 2 then Some([Byte0(u, v)])
        else (
          match LetterValue(s[2])
          case None => None
          case Some(w) =>
            if |s| == 3 then Some([Byte0(u, v), Byte1(v, w)])
            else
              match (LetterValue(s[3]), FromLetters(s[4..]))
              case (Some(x), Some(rest)) => Some([Byte0(u, v), Byte1(v, w), Byte2(w, x)] + rest)
              case (_, _) => None
        )
      case (_, _) => None
  }

  /** Tab, line feed, form feed, carriage return and space. */
  predicate IsAsciiSpace(c: char)
  {
    c as int == 9 || c as int == 10 || c as int == 12 || c as int == 13 || c as int == 32
  }

  function StripSpaces(s: string): string
  {
    if s == "" then "" else StripSpaces(Front(s)) + if IsAsciiSpace(Last(s)) then "" else [Last(s)]
  }

  lemma {:induction false} NothingStripped(s: string)
    requires forall i :: 0 <= i < |s| ==> !IsAsciiSpace(s[i])
    ensures StripSpaces(s) == s
  {
    if s != "" {
      NothingStripped(Front(s));
      assert Front(s) + [Last(s)] == s;
    }
  }

  lemma {:induction false} StripConcat(a: string, b: string)
    ensures StripSpaces(a + b) == StripSpaces(a) + StripSpaces(b)
  {
    hide IsAsciiSpace;
    if b == "" {
      assert a + b == a;
    } else {
      StripConcat(a, Front(b));
      assert Front(a + b) == a + Front(b) && Last(a + b) == Last(b);
    }
  }

  /** atob: white space is dropped before anything else. */
  function Atob(s: string): Option<Bytes> { DecodePadded(StripSpaces(s)) }

  /** Tab, line feed, form feed, carriage return and space make no difference to atob. */
  lemma SpaceIgnored(a: string, c: char, b: string)
    requires c as int in {9, 10, 12, 13, 32}
    ensures Atob(a + [c] + b) == Atob(a + b)
  {
    hide StripSpaces, DecodePadded;
    StripConcat(a + [c], b);
    StripConcat(a, [c]);
    StripConcat(a, b);
    StripOne(c);
    assert StripSpaces(a) + "" == StripSpaces(a);
  }

  lemma StripOne(c: char)
    requires IsAsciiSpace(c)
    ensures StripSpaces([c]) == ""
  {
    assert Front([c]) == "" && StripSpaces("") == "";
  }

  /** At most two padding characters come off, and only when the length is a multiple of four. */
  function DecodePadded(s: string): Option<Bytes>
  {
    if |s| % 4 == 0 && |s| > 0 && s[|s| - 1] == '=' then
      if s[|s| - 2] == '=' then FromLetters(s[..|s| - 2]) else FromLetters(s[..|s| - 1])
    else
      FromLetters(s)
  }

  /** A letter of the standard alphabet. */
  predicate IsLetter(c: char) { LetterValue(c).Some? }

  predicate AllLetters(s: string) { forall i :: 0 <= i < |s| ==> IsLetter(s[i]) }

  /** Letters are read exactly when all are of the alphabet and their number can be one of a byte string. */
  lemma {:induction false} LettersExact(s: string)
    ensures FromLetters(s).Some? <==> |s| % 4 != 1 && AllLetters(s)
  {
    if |s| >= 4 {
      LettersExact(s[4..]);
      GroupRead(s);
      GroupLetters(s);
    } else {
      FewLetters(s);
    }
  }

  lemma FewLetters(s: string)
    requires |s| < 4
    ensures FromLetters(s).Some? <==> |s| != 1 && AllLetters(s)
  {
    hide LetterValue, Byte0, Byte1;
  }

  lemma GroupRead(s: string)
    requires |s| >= 4
    ensures FromLetters(s).Some?
            <==> IsLetter(s[0]) && IsLetter(s[1]) && IsLetter(s[2]) && IsLetter(s[3]) && FromLetters(s[4..]).Some?
  {
    hide LetterValue, Byte0, Byte1, Byte2;
  }

  lemma GroupLetters(s: string)
    requires |s| >= 4
    ensures AllLetters(s)
            <==> IsLetter(s[0]) && IsLetter(s[1]) && IsLetter(s[2]) && IsLetter(s[3]) && AllLetters(s[4..])
  {
    hide IsLetter;
    assert forall i :: 4 <= i < |s| ==> s[i] == s[4..][i - 4];
  }

  lemma {:induction false} LettersRoundTrip(b: Bytes)
    ensures FromLetters(Letters(b)) == Some(b)
  {
    hide Letter, LetterValue, Sextet0, Sextet1, Sextet2, Sextet3, Byte0, Byte1, Byte2;
    if b != [] {
      var y, z := if |b| > 1 then b[1] else 0, if |b| > 2 then b[2] else 0;
      Reassemble(b[0], y, z);
      LetterRoundTrip(Sextet0(b[0]));
      LetterRoundTrip(Sextet1(b[0], y));
      LetterRoundTrip(Sextet2(y, z));
      LetterRoundTrip(Sextet3(z));
      if |b| == 1 {
        assert b == [b[0]];
      } else if |b| == 2 {
        assert b == [b[0], y];
      } else {
        assert Letters(b)[..4] == Quad(b[0], y, z) && Letters(b)[4..] == Letters(b[3..]);
        LettersRoundTrip(b[3..]);
        assert b == [b[0], y, z] + b[3..];
      }
    }
  }

  // ---- The alphabet swap and the padding ---------------------------------------------

  function Replace(s: string, from: char, to: char): (r: string)
    ensures |r| == |s|
    ensures forall i :: 0 <= i < |s| ==> r[i] == if s[i] == from then to else s[i]
  {
    seq(|s|, i requires 0 <= i < |s| => if s[i] == from then to else s[i])
  }

  /** Removes the trailing run of c. */
  function StripEnd(s: string, c: char): string
  {
    if s != "" && Last(s) == c then StripEnd(Front(s), c) else s
  }

  function UrlEncode(b: Bytes): string
  {
    StripEnd(Replace(Replace(Btoa(b), '+', '-'), '/', '_'), '=')
  }

  function UrlDecode(s: string): Option<Bytes>
  {
    var b64 := Replace(Replace(s, '-', '+'), '_', '/');
    Atob(b64 + Repeat('=', (4 - |b64| % 4) % 4))
  }

  /** A URL-safe letter. */
  predicate IsUrlLetter(c: char)
  {
    'A' <= c <= 'Z' || 'a' <= c <= 'z' || '0' <= c <= '9' || c == '-' || c == '_'
  }

  lemma SwappedLetter(c: char)
    requires IsUrlLetter(c)
    ensures IsLetter(if c == '-' then '+' else if c == '_' then '/' else c)
  {
  }

  lemma LetterNotSpace(c: char)
    ensures IsLetter(c) ==> c != '=' && !IsAsciiSpace(c)
    ensures !IsLetter('=') && !IsAsciiSpace('=')
  {
  }

  /** Text of URL-safe letters is decoded exactly when its length is one that a byte string can have. */
  lemma UrlDecodeExact(s: string)
    requires forall i :: 0 <= i < |s| ==> IsUrlLetter(s[i])
    ensures UrlDecode(s).Some? <==> |s| % 4 != 1
  {
    hide IsUrlLetter, IsLetter, Atob;
    var b64 := Replace(Replace(s, '-', '+'), '_', '/');
    forall i | 0 <= i < |b64|
      ensures IsLetter(b64[i])
    {
      SwappedLetter(s[i]);
    }
    PaddedExactly(b64, (4 - |b64| % 4) % 4);
  }

  lemma PaddedExactly(s: string, n: nat)
    requires n == (4 - |s| % 4) % 4 && forall i :: 0 <= i < |s| ==> IsLetter(s[i])
    ensures Atob(s + Repeat('=', n)).Some? <==> |s| % 4 != 1
  {
    hide IsLetter, IsAsciiSpace, DecodePadded, StripSpaces;
    var t := s + Repeat('=', n);
    forall i | 0 <= i < |t|
      ensures !IsAsciiSpace(t[i])
    {
      LetterNotSpace(t[i]);
    }
    NothingStripped(t);
    PaddingRead(s, n);
  }

  lemma PaddingRead(s: string, n: nat)
    requires n == (4 - |s| % 4) % 4 && forall i :: 0 <= i < |s| ==> IsLetter(s[i])
    ensures DecodePadded(s + Repeat('=', n)).Some? <==> |s| % 4 != 1
  {
    hide LetterValue, FromLetters;
    var t := s + Repeat('=', n);
    LettersExact(s);
    LetterNotSpace('=');
    if n > 0 {
      LetterNotSpace(s[|s| - 1]);
    }
    if n == 0 {
      assert t == s;
      if s != "" {
        LetterNotSpace(s[|s| - 1]);
      }
    } else if n == 1 {
      assert t[..|t| - 1] == s && t[|t| - 2] == s[|s| - 1];
    } else if n == 2 {
      assert t[..|t| - 2] == s;
    } else {
      LettersExact(t[..|t| - 2]);
      assert t[..|t| - 2][|s|] == '=';
    }
  }

  function UrlLetters(b: Bytes): (s: string)
    ensures |s| == |Letters(b)|
  {
    Replace(Replace(Letters(b), '+', '-'), '/', '_')
  }

  lemma {:induction false} StripRepeat(s: string, c: char, n: nat)
    requires forall i :: 0 <= i < |s| ==> s[i] != c
    ensures StripEnd(s + Repeat(c, n), c) == s
  {
    var t := s + Repeat(c, n);
    if n == 0 {
      assert t == s;
    } else {
      assert Front(t) == s + Repeat(c, n - 1);
      StripRepeat(s, c, n - 1);
    }
  }

  /** Stripping the padding loses nothing but the padding. */
  lemma UrlEncodeIsLetters(b: Bytes)
    ensures UrlEncode(b) == UrlLetters(b)
    ensures forall i :: 0 <= i < |UrlEncode(b)| ==> UrlEncode(b)[i] != '.' && UrlEncode(b)[i] as int < 0x80
    ensures forall i :: 0 <= i < |UrlEncode(b)| ==> IsUrlLetter(UrlEncode(b)[i])
  {
    hide Letters, IsUrlLetter;
    LettersPlain(b);
    LettersSwapped(b);
    var p := Padding(b);
    assert Replace(Replace(Btoa(b), '+', '-'), '/', '_') == UrlLetters(b) + p;
    PlainSwapped(Letters(b));
    StripRepeat(UrlLetters(b), '=', |p|);
    assert p == Repeat('=', |p|);
  }

  lemma {:induction false} LettersSwapped(b: Bytes)
    ensures forall i :: 0 <= i < |UrlLetters(b)| ==> IsUrlLetter(UrlLetters(b)[i])
  {
    hide IsUrlLetter;
    InAlphabet(b);
    forall i | 0 <= i < |UrlLetters(b)|
      ensures IsUrlLetter(UrlLetters(b)[i])
    {
      SwappedBack(Letters(b)[i]);
    }
  }

  lemma SwappedBack(c: char)
    ensures IsLetter(c) ==> IsUrlLetter(if c == '+' then '-' else if c == '/' then '_' else c)
  {
  }

  lemma {:induction false} InAlphabet(b: Bytes)
    ensures forall i :: 0 <= i < |Letters(b)| ==> IsLetter(Letters(b)[i])
  {
    hide Letter, LetterValue, Sextet0, Sextet1, Sextet2, Sextet3;
    forall n: sextet
      ensures IsLetter(Letter(n))
    {
      LetterRoundTrip(n);
    }
    if |b| >= 3 {
      InAlphabet(b[3..]);
    }
  }

  lemma PlainSwapped(s: string)
    requires AllPlain(s)
    ensures var u := Replace(Replace(s, '+', '-'), '/', '_');
            && (forall i :: 0 <= i < |u| ==> u[i] != '.' && u[i] != '=' && u[i] as int < 0x80)
            && Replace(Replace(u, '-', '+'), '_', '/') == s
  {
    var u := Replace(Replace(s, '+', '-'), '/', '_');
    forall i | 0 <= i < |u|
      ensures u[i] != '.' && u[i] != '=' && u[i] as int < 0x80
    {
      assert IsPlain(s[i]);
    }
    forall i | 0 <= i < |u|
      ensures Replace(Replace(u, '-', '+'), '_', '/')[i] == s[i]
    {
      assert IsPlain(s[i]);
    }
  }

  lemma PlainPadded(s: string, pad: nat)
    requires AllPlain(s)
    ensures StripSpaces(s + Repeat('=', pad)) == s + Repeat('=', pad)
    ensures forall i :: 0 <= i < |s| ==> s[i] != '='
  {
    var t := s + Repeat('=', pad);
    forall i | 0 <= i < |t|
      ensures !IsAsciiSpace(t[i])
    {
      assert i < |s| ==> IsPlain(s[i]);
    }
    NothingStripped(t);
    forall i | 0 <= i < |s|
      ensures s[i] != '='
    {
      assert IsPlain(s[i]);
    }
  }

  /** Decoding undoes encoding: the length alone says how much padding to put back. */
  lemma RoundTrip(b: Bytes)
    ensures UrlDecode(UrlEncode(b)) == Some(b)
  {
    hide Letters, FromLetters, UrlEncode, StripSpaces, DecodePadded, AllPlain;
    var s := Letters(b);
    var pad := (4 - |s| % 4) % 4;
    UrlEncodeIsLetters(b);
    LettersPlain(b);
    PlainSwapped(s);
    PlainPadded(s, pad);
    DecodedPadded(s, pad);
    LettersRoundTrip(b);
  }

  /** Padding to a multiple of four is what decoding takes off again. */
  lemma DecodedPadded(s: string, pad: nat)
    requires pad == (4 - |s| % 4) % 4 && pad <= 2
    requires forall i :: 0 <= i < |s| ==> s[i] != '='
    ensures DecodePadded(s + Repeat('=', pad)) == FromLetters(s)
  {
    assert (|s| + pad) % 4 == 0 && (pad > 0 ==> |s| >= 2);
    PaddingStripped(s, pad);
  }

  lemma PaddingStripped(s: string, pad: nat)
    requires (|s| + pad) % 4 == 0 && pad <= 2 && (pad > 0 ==> |s| >= 2)
    requires forall i :: 0 <= i < |s| ==> s[i] != '='
    ensures DecodePadded(s + Repeat('=', pad)) == FromLetters(s)
  {
    hide FromLetters;
    var n, padded := |s| + pad, s + Repeat('=', pad);
    if pad == 0 {
      assert padded == s;
      assert n > 0 ==> padded[n - 1] == s[n - 1];
    } else if pad == 1 {
      assert padded[n - 1] == '=' && padded[n - 2] == s[n - 2];
      assert padded[..n - 1] == s;
    } else {
      assert padded[n - 1] == '=' && padded[n - 2] == '=';
      assert padded[..n - 2] == s;
    }
  }

  lemma Injective(a: Bytes, b: Bytes)
    requires UrlEncode(a) == UrlEncode(b)
    ensures a == b
  {
    RoundTrip(a);
    RoundTrip(b);
  }

  // ---- The loops of the source -------------------------------------------------------

  /** A binary string: one character per byte. */
  function Binary(b: Bytes): (s: string)
    ensures |s| == |b| && forall i :: 0 <= i < |b| ==> s[i] as int == b[i]
  {
    seq(|b|, i requires 0 <= i < |b| => b[i] as char)
  }

  method Base64UrlEncode(data: Bytes) returns (s: string)
    ensures s == UrlEncode(data)
  {
    var binary: string := "";
    for i := 0 to |data|
      invariant binary == Binary(data[..i])
    {
      binary := binary + [data[i] as char];
    }
    assert data[..|data|] == data;
    var units := seq(|binary|, i requires 0 <= i < |binary| => ToByte(binary[i] as int));
    assert units == data;
    s := StripEnd(Replace(Replace(Btoa(units), '+', '-'), '/', '_'), '=');
  }

  method Base64UrlDecode(str: string) returns (r: Option<Bytes>)
    ensures r == UrlDecode(str)
  {
    hide Atob, Replace, Repeat;
    var b64 := Replace(Replace(str, '-', '+'), '_', '/');
    var padded := b64 + Repeat('=', (4 - |b64| % 4) % 4);
    match Atob(padded)
    case None => return None;
    case Some(decoded) =>
      var binary := Binary(decoded);
      var bytes: Bytes := [];
      for i := 0 to |binary|
        invariant bytes == decoded[..i]
      {
        bytes := bytes + [ToByte(binary[i] as int)];
      }
      assert decoded[..|decoded|] == decoded;
      return Some(bytes);
  }
}
