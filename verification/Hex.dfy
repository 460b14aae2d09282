/**
 * Hexadecimal encodings: byte strings and big-endian 64-digit scalars, as projects/dealer/src/hex.ts
 * writes them and the node reads them back.
 */
module Hex {
  import opened Arith
  import opened Seqs
  import opened Bytes
  import opened Json

  const SCALAR_DIGITS: nat := 64

  predicate IsHexDigit(c: char) { '0' <= c <= '9' || 'a' <= c <= 'f' || 'A' <= c <= 'F' }

  predicate AllHex(s: string) { forall i :: 0 <= i < |s| ==> IsHexDigit(s[i]) }

  function DigitOf(c: char): nat
    requires IsHexDigit(c)
  {
    if '0' <= c <= '9' then c as int - 48 else if 'a' <= c <= 'f' then c as int - 87 else c as int - 55
  }

  /** BigInt("0x" + s) */
  function HexNumber(s: string): nat
    requires AllHex(s)
  {
    if s == "" then 0 else HexNumber(Front(s)) * 16 + DigitOf(s[|s| - 1])
  }

  /** n.toString(16) */
  function HexText(n: nat): (s: string)
    ensures s != "" && AllHex(s)
  {
    if n < 16 then [HexDigit(n)] else HexText(n / 16) + [HexDigit(n % 16)]
  }

  /** padStart(length, "0") */
  function PadZeros(s: string, length: nat): (r: string)
    ensures AllHex(s) ==> AllHex(r)
    ensures |r| == if |s| < length then length else |s|
  {
    if |s| >= length then s else seq(length - |s|, i => '0') + s
  }

  lemma {:induction false} HexNumberOfText(n: nat)
    ensures HexNumber(HexText(n)) == n
  {
    var s := HexText(n);
    if n < 16 {
      assert Front(s) == "";
    } else {
      HexNumberOfText(n / 16);
      assert Front(s) == HexText(n / 16);
    }
  }

  lemma {:induction false} LeadingZeros(k: nat, s: string)
    requires AllHex(s)
    ensures AllHex(seq(k, i => '0') + s) && HexNumber(seq(k, i => '0') + s) == HexNumber(s)
  {
    var z := seq(k, i => '0');
    if s != "" {
      LeadingZeros(k, Front(s));
      assert Front(z + s) == z + Front(s);
    } else if k > 0 {
      LeadingZeros(k - 1, "");
      assert z + s == z;
      assert Front(z) == seq(k - 1, i => '0') + "";
    } else {
      assert z + s == "";
    }
  }

  lemma {:induction false} HexTextLength(n: nat, k: nat)
    requires k > 0
    ensures |HexText(n)| <= k <==> n < Pow(16, k)
  {
    if n < 16 {
      PowAtLeast(k);
    } else if k > 1 {
      HexTextLength(n / 16, k - 1);
      PowAtLeast(k - 1);
      DivBelow(n, Pow(16, k - 1));
    }
  }

  lemma {:induction false} PowAtLeast(k: nat)
    requires k > 0
    ensures Pow(16, k) >= 16
  {
    if k > 1 {
      PowAtLeast(k - 1);
    }
  }

  lemma DivBelow(n: nat, m: nat)
    ensures n / 16 < m <==> n < 16 * m
  {
  }

  // ---- Scalars -----------------------------------------------------------------------

  /** The dealer's encoder: 64 digits or a refusal. */
  function ScalarToHex(scalar: int): Result<string>
  {
    if scalar < 0 then Err(NegativeScalar)
    else if |HexText(scalar)| > SCALAR_DIGITS then Err(ScalarTooLong)
    else Ok(PadZeros(HexText(scalar), SCALAR_DIGITS))
  }

  /** toString(16) of any integer. */
  function IntText(n: int): string { if n < 0 then "-" + HexText(-n) else HexText(n) }

  /** The node's encoder, which checks nothing. */
  function NodeScalarToHex(scalar: int): string
  {
    PadZeros(IntText(scalar), SCALAR_DIGITS)
  }

  function HexToScalar(hex: string): Result<int>
  {
    if |hex| != SCALAR_DIGITS then Err(BadHexLength)
    else if !AllHex(hex) then Err(BadHexDigit)
    else Ok(HexNumber(hex))
  }

  /** A scalar is read from exactly sixty-four digits. */
  lemma ScalarReadExactly(hex: string)
    ensures HexToScalar(hex).Ok? <==> |hex| == 64 && AllHex(hex)
  {
    hide HexNumber;
  }

  /** A negative number is written with its sign in front. */
  lemma NegativeText(n: int)
    requires n > 0
    ensures IntText(-n) == "-" + IntText(n)
  {
  }

  lemma {:induction false} NumberBelow(s: string)
    requires AllHex(s)
    ensures HexNumber(s) < Pow(16, |s|)
  {
    if s != "" {
      NumberBelow(Front(s));
    }
  }

  /** Sixty-four digits spell a number of 32 bytes. */
  lemma NumberBound(s: string)
    requires AllHex(s) && |s| == SCALAR_DIGITS
    ensures HexNumber(s) < Pow(256, 32)
  {
    hide HexNumber, Pow;
    NumberBelow(s);
    PowDouble(16, 32);
  }

  /** A scalar is encodable exactly when it fits 32 bytes, and then both decoders give it back. */
  lemma ScalarRoundTrip(scalar: int)
    ensures ScalarToHex(scalar).Ok? <==> 0 <= scalar < Pow(256, 32)
    ensures ScalarToHex(scalar).Ok? ==>
              && |ScalarToHex(scalar).value| == SCALAR_DIGITS && AllHex(ScalarToHex(scalar).value)
              && HexToScalar(ScalarToHex(scalar).value) == Ok(scalar)
              && NodeScalarToHex(scalar) == ScalarToHex(scalar).value
  {
    hide HexText, HexNumber, Pow;
    PowDouble(16, 32);
    if scalar >= 0 {
      HexTextLength(scalar, SCALAR_DIGITS);
      HexNumberOfText(scalar);
      var s := HexText(scalar);
      if |s| <= SCALAR_DIGITS {
        LeadingZeros(SCALAR_DIGITS - |s|, s);
        assert |s| == SCALAR_DIGITS ==> seq(SCALAR_DIGITS - |s|, i => '0') + s == s;
      }
    }
  }

  // ---- Byte strings ------------------------------------------------------------------

  /** Two digits for one byte. */
  function ByteHex(b: byte): (s: string)
    ensures |s| == 2 && AllHex(s)
  {
    [HexDigit(b / 16), HexDigit(b % 16)]
  }

  function HexOf(bytes: Bytes): (s: string)
    ensures |s| == 2 * |bytes| && AllHex(s)
  {
    if bytes == [] then "" else HexOf(Front(bytes)) + ByteHex(Last(bytes))
  }

  method BytesToHex(bytes: Bytes) returns (out: string)
    ensures out == HexOf(bytes)
  {
    out := "";
    for i := 0 to |bytes|
      invariant out == HexOf(bytes[..i])
    {
      PrefixStep(bytes, i);
      ByteText(bytes[i]);
      out := out + PadZeros(HexText(bytes[i]), 2);
    }
    assert bytes[..|bytes|] == bytes;
  }

  lemma ByteText(b: byte)
    ensures PadZeros(HexText(b), 2) == ByteHex(b)
  {
    if b < 16 {
      assert seq(1, i => '0') == ['0'];
      assert HexDigit(0) == '0';
    } else {
      assert HexText(b / 16) == [HexDigit(b / 16)];
    }
  }

  /** The byte that two digits spell. */
  function PairValue(s: string, i: nat): byte
    requires 2 * i + 2 <= |s| && AllHex(s)
  {
    DigitOf(s[2 * i]) * 16 + DigitOf(s[2 * i + 1])
  }

  ghost predicate Spells(s: string, bytes: Bytes)
  {
    |s| == 2 * |bytes| && AllHex(s) && forall i :: 0 <= i < |bytes| ==> bytes[i] == PairValue(s, i)
  }

  method HexToBytes(hex: string) returns (r: Result<Bytes>)
    ensures r.Ok? <==> |hex| % 2 == 0 && AllHex(hex)
    ensures |hex| % 2 != 0 ==> r == Err(BadHexLength)
    ensures |hex| % 2 == 0 && !AllHex(hex) ==> r == Err(BadHexDigit)
    ensures r.Ok? ==> Spells(hex, r.value)
  {
    if |hex| % 2 != 0 {
      return Err(BadHexLength);
    }
    if !AllHex(hex) {
      return Err(BadHexDigit);
    }
    var out: Bytes := [];
    for i := 0 to |hex| / 2
      invariant |out| == i
      invariant forall k :: 0 <= k < i ==> out[k] == PairValue(hex, k)
    {
      out := out + [PairValue(hex, i)];
    }
    return Ok(out);
  }

  /** The text written for a byte string spells exactly that byte string. */
  lemma {:induction false} HexOfSpells(bytes: Bytes, other: Bytes)
    ensures Spells(HexOf(bytes), other) <==> other == bytes
  {
    HexOfDigits(bytes);
    if Spells(HexOf(bytes), other) {
      assert forall i :: 0 <= i < |bytes| ==> other[i] == bytes[i];
    }
  }

  lemma {:induction false} HexOfDigits(bytes: Bytes)
    ensures forall i :: 0 <= i < |bytes| ==> PairValue(HexOf(bytes), i) == bytes[i]
  {
    if bytes != [] {
      HexOfDigits(Front(bytes));
      var s, f := HexOf(bytes), HexOf(Front(bytes));
      forall i | 0 <= i < |bytes|
        ensures PairValue(s, i) == bytes[i]
      {
        if i < |bytes| - 1 {
          assert s[2 * i] == f[2 * i] && s[2 * i + 1] == f[2 * i + 1];
          assert PairValue(f, i) == Front(bytes)[i];
        } else {
          assert s[2 * i] == ByteHex(Last(bytes))[0] && s[2 * i + 1] == ByteHex(Last(bytes))[1];
        }
      }
    }
  }
}
