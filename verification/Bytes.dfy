/** Byte strings and the little-endian reading of scalars. */
module Bytes {
  import opened Arith
  import opened Seqs

  type byte = x: int | 0 <= x < 256

  type Bytes = seq<byte>

  /** What storing an integer into a Uint8Array keeps. */
  function ToByte(n: int): byte { n % 256 }

  /** The number whose little-endian bytes are b. */
  function LeValue(b: Bytes): nat
  {
    if b == [] then 0 else b[0] + 256 * LeValue(b[1..])
  }

  /** The low n bytes of v, least significant first. */
  function LeBytes(v: nat, n: nat): (b: Bytes)
    ensures |b| == n
  {
    if n == 0 then [] else [v % 256] + LeBytes(v / 256, n - 1)
  }

  lemma LeNothing(b: Bytes)
    requires b == []
    ensures LeValue(b) == 0
  {
  }

  /** Reading one more byte, as a loop from the top does. */
  lemma LeStep(b: Bytes, i: nat)
    requires i < |b|
    ensures LeValue(b[i..]) == LeValue(b[i + 1..]) * 256 + b[i]
  {
    assert b[i..][1..] == b[i + 1..];
  }

  lemma {:induction false} LeValueBound(b: Bytes)
    ensures LeValue(b) < Pow(256, |b|)
  {
    if b != [] {
      LeValueBound(b[1..]);
    }
  }

  lemma {:induction false} LeValueOfBytes(v: nat, n: nat)
    ensures v < Pow(256, n) ==> LeValue(LeBytes(v, n)) == v
  {
    if n > 0 && v < Pow(256, n) {
      LeValueOfBytes(v / 256, n - 1);
      assert v == 256 * (v / 256) + v % 256;
      assert v / 256 < Pow(256, n - 1);
    }
  }

  lemma {:induction false} LeBytesOfValue(b: Bytes)
    ensures LeBytes(LeValue(b), |b|) == b
  {
    if b != [] {
      var v := LeValue(b);
      ModUnique(v, LeValue(b[1..]), b[0], 256);
      LeBytesOfValue(b[1..]);
    }
  }

  lemma {:induction false} LeValueAppend(b: Bytes, c: byte)
    ensures LeValue(b + [c]) == LeValue(b) + Pow(256, |b|) * c
  {
    if b != [] {
      LeValueAppend(b[1..], c);
      assert (b + [c])[1..] == b[1..] + [c];
      assert 256 * (Pow(256, |b| - 1) * c) == Pow(256, |b|) * c;
    } else {
      assert [c][1..] == [];
      assert b + [c] == [c];
    }
  }

  /** Two byte strings of known first length are equal only piece by piece. */
  lemma ConcatInjective<T>(a: seq<T>, b: seq<T>, c: seq<T>, d: seq<T>)
    requires |a| == |c| && a + b == c + d
    ensures a == c && b == d
  {
    assert a == (a + b)[..|a|] == (c + d)[..|c|] == c;
    assert b == (a + b)[|a|..] == (c + d)[|c|..] == d;
  }
}
