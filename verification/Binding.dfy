/**
 * What a signature is bound to: one scalar for its commitment, key and message, and one message for the
 * whole of it, unless SHA-512 coincides; so a round aggregates exactly when its shares add up.
 */
module Binding {
  import opened Arith
  import opened Seqs
  import opened Bytes
  import opened Suites
  import opened Frost
  import opened Signing
  import opened Node
  import Toprf
  import Utf8

  // ---- The verification equation -----------------------------------------------------

  /** A signature with the given commitment is determined by key and message. */
  lemma SignatureUnique(S: Suite, a: Bytes, b: Bytes, msg: Bytes, Y: Bytes)
    requires IsSuite(S) && Order(S) > 0 && S.ed.base != S.ed.zero
    requires Verifies(S, a, msg, Y) && Verifies(S, b, msg, Y) && a[..32] == b[..32]
    ensures a == b
  {
    hide IsSuite, IsPrime, IsGroup, LeValue;
    OrderIsPrime(S);
    var s, t := LeValue(a[32..]), LeValue(b[32..]);
    BaseValid(S.ed);
    MulSame(S.ed, s, t, S.ed.base);
    ModUnique(s, 0, s, Order(S));
    ModUnique(t, 0, t, Order(S));
    SameScalar(a[32..], b[32..]);
    assert a == a[..32] + a[32..] && b == b[..32] + b[32..];
  }

  lemma SameScalar(a: Bytes, b: Bytes)
    requires |a| == |b| && LeValue(a) == LeValue(b)
    ensures a == b
  {
    LeBytesOfValue(a);
    LeBytesOfValue(b);
  }

  /** The scalars that SHA-512 gives for two different texts are congruent. */
  ghost predicate ScalarsCoincide(S: Suite, x: Bytes, y: Bytes)
    requires Order(S) > 0
  {
    x != y && LeValue(S.sha512(x)) % Order(S) == LeValue(S.sha512(y)) % Order(S)
  }

  /** A signature that verifies on two messages needs such a coincidence, or the zero point for a key. */
  lemma SignatureBindsMessage(S: Suite, signature: Bytes, m: Bytes, n: Bytes, Y: Bytes)
    requires IsSuite(S) && Order(S) > 0 && Y != S.ed.zero && m != n
    requires Verifies(S, signature, m, Y) && Verifies(S, signature, n, Y)
    ensures ScalarsCoincide(S, signature[..32] + Y + m, signature[..32] + Y + n)
  {
    hide IsSuite, IsPrime, IsGroup, LeValue;
    OrderIsPrime(S);
    var R := signature[..32];
    var c, d := LeValue(S.sha512(R + Y + m)), LeValue(S.sha512(R + Y + n));
    CancelSummand(S.ed, R, S.ed.mul(c, Y), S.ed.mul(d, Y)) by {
      MulValid(S.ed, c, Y);
      MulValid(S.ed, d, Y);
    }
    MulSame(S.ed, c, d, Y);
    TailsDiffer(R + Y, m, n);
  }

  lemma TailsDiffer(x: Bytes, m: Bytes, n: Bytes)
    requires m != n
    ensures x + m != x + n
  {
    assert (x + m)[|x|..] == m && (x + n)[|x|..] == n;
  }

  lemma CancelSummand(G: Group, x: Bytes, a: Bytes, b: Bytes)
    requires IsGroup(G) && G.valid(x) && G.valid(a) && G.valid(b) && G.add(x, a) == G.add(x, b)
    ensures a == b
  {
    var n := G.mul(-1, x);
    MulValid(G, -1, x);
    assert MulLaw(G, -1, 1, x);
    assert UnitLaw(G, x) && UnitLaw(G, a) && UnitLaw(G, b);
    assert AddLaw(G, n, x, a) && AddLaw(G, n, x, b);
  }

  // ---- Aggregation -------------------------------------------------------------------

  /**
   * Whatever shares are put in, the aggregate of a round verifies exactly when they add up to what the
   * signers' own shares add up to: one wrong share spoils the signature.
   */
  lemma AggregateExact(S: Suite, q: seq<Signer>, cs: seq<int>, zs: seq<int>, ws: seq<int>, msg: Bytes,
                       commitments: seq<Commitment>, participants: seq<int>)
    requires IsSuite(S) && Quorum(S, q, cs) && S.ed.base != S.ed.zero
    requires multiset(commitments) == multiset(PublishedAll(S, q))
    requires multiset(participants) == multiset(SignerIds(q))
    requires Answers(S, q, zs, msg, commitments, S.ed.mul(cs[0], S.ed.base), participants)
    ensures var R := GroupCommitment(S, msg, commitments);
            R.Ok? && (Verifies(S, Aggregate(R.value, ws, Order(S)), msg, S.ed.mul(cs[0], S.ed.base))
                      <==> Sum(ws) % Order(S) == Sum(zs) % Order(S))
  {
    hide Quorum, Answers, GroupCommitment, Sum, Verifies, Aggregate, IsSuite;
    OrderIsPrime(S);
    QuorumKey(S, q, cs);
    AggregateVerifies(S, q, cs, zs, zs, msg, commitments, participants);
    var R, Y := GroupCommitment(S, msg, commitments).value, S.ed.mul(cs[0], S.ed.base);
    AggregateParts(S, R, zs);
    AggregateParts(S, R, ws);
    if Verifies(S, Aggregate(R, ws, Order(S)), msg, Y) {
      SignatureUnique(S, Aggregate(R, ws, Order(S)), Aggregate(R, zs, Order(S)), msg, Y);
    }
  }

  lemma QuorumKey(S: Suite, q: seq<Signer>, cs: seq<int>)
    requires Order(S) > 0 && Quorum(S, q, cs)
    ensures cs != []
  {
  }

  lemma AggregateParts(S: Suite, R: Bytes, zs: seq<int>)
    requires IsSuite(S) && Order(S) > 0 && |R| == 32
    ensures var sig := Aggregate(R, zs, Order(S));
            |sig| == 64 && sig[..32] == R && LeValue(sig[32..]) == Sum(zs) % Order(S)
            && sig == R + LeBytes(Sum(zs) % Order(S), 32)
  {
    hide IsSuite, IsPrime, IsGroup, Sum, LeValue;
    OrderIsPrime(S);
    ScalarFits(Sum(zs), Order(S));
    var sig := Aggregate(R, zs, Order(S));
    assert sig[32..] == LeBytes(Sum(zs) % Order(S), 32);
  }

  /** The group commitment exists exactly when every D and E is a point. */
  lemma CommitmentRules(S: Suite, msg: Bytes, commitments: seq<Commitment>)
    requires IsSuite(S) && Order(S) > 0
    ensures GroupCommitment(S, msg, commitments).Ok?
            <==> forall i :: 0 <= i < |commitments| ==> S.ed.valid(commitments[i].D) && S.ed.valid(commitments[i].E)
  {
    hide IsSuite, SumPoints, Parts;
  }

  // ---- The binding factor ------------------------------------------------------------

  /** Two binding factors agree exactly for one text, or by a coincidence on two. */
  lemma BindingFactorsAgree(S: Suite, i: int, m: Bytes, a: seq<Commitment>, j: int, n: Bytes, b: seq<Commitment>)
    requires Order(S) > 0
    ensures BindingFactor(S, i, m, a) == BindingFactor(S, j, n, b)
            <==> BindingInput(i, m, a) == BindingInput(j, n, b)
                 || ScalarsCoincide(S, BindingInput(i, m, a), BindingInput(j, n, b))
  {
    hide BindingInput, LeValue;
  }

  /** The signer's id stands first and the message next in what is hashed to its binding factor. */
  lemma BindingInputFields(i: int, m: Bytes, a: seq<Commitment>)
    ensures var x := BindingInput(i, m, a);
            && |x| >= 1 + |m| && x[0] == i % 256 && x[1..1 + |m|] == m
            && x[1 + |m|..] == CommitmentBytes(SortById(a))
  {
    hide CommitmentBytes, SortById;
  }

  // ---- The nonce of a session --------------------------------------------------------

  /** Two different texts whose SHA-512 begins with the same 12 bytes. */
  ghost predicate NoncesCoincide(S: Suite, x: Bytes, y: Bytes)
  {
    x != y && |S.sha512(x)| == |S.sha512(y)| == 64 && S.sha512(x)[..12] == S.sha512(y)[..12]
  }

  /** Two nonces agree exactly for one session and one id, up to its low two bytes, or by a coincidence. */
  lemma NoncesAgree(S: Suite, n: Bytes, i: int, n': Bytes, j: int)
    requires IsSuite(S)
    ensures AeadNonce(S, n, i) == AeadNonce(S, n', j)
            <==> (n == n' && i % 65536 == j % 65536) || NoncesCoincide(S, AeadInput(n, i), AeadInput(n', j))
  {
    hide AeadInput;
    assert HashLaw(S, AeadInput(n, i)) && HashLaw(S, AeadInput(n', j));
    AeadInputExact(n, i, n', j);
  }

  lemma AeadInputFields(n: Bytes, i: int)
    ensures var x := AeadInput(n, i);
            && |x| == 18 + |n| && x[..16] == Utf8.Encode("PASTA-AEAD-NONCE") && x[16..16 + |n|] == n
            && LeValue(x[16 + |n|..]) == i % 65536
  {
    hide Utf8.Encode, Toprf.U16, LeValue;
    AeadPrefixLength();
    Toprf.U16Length(i);
    Toprf.U16Reads(i);
    var x := AeadInput(n, i);
    assert x[..16] == AeadPrefix() && x[16 + |n|..] == Toprf.U16(i);
  }

  lemma AeadPrefixLength()
    ensures |AeadPrefix()| == 16
  {
    Utf8.EncodeAscii("PASTA-AEAD-NONCE");
  }
}
