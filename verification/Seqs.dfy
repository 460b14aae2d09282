/** Sequences and folds: what may be reordered, and what a fold over a permutation gives. */
module Seqs {

  datatype Option<+T> = None | Some(value: T)

  /** The errors the source throws, one constructor per message. */
  datatype Error =
    // crypto/shamir.ts, crypto/toprf.ts, point decoding
    | ZeroHasNoInverse
    | NoShares
    | DuplicateIds
    | BadThreshold
    | NoPartials
    | BadPoint
    // dealer/src/hex.ts
    | NegativeScalar
    | ScalarTooLong
    | BadHexLength
    | BadHexDigit
    // jwt/jwt.ts
    | MalformedJwt
    | BadJson
    | UnsupportedAlg
    | InvalidSignature
    | TokenExpired
    // client-sdk/dpop.ts
    | BadProofTyp
    | BadProofKey
    | HtmMismatch
    | HtuMismatch
    | ProofStale
    | ThumbprintMismatch
    // protocol/node.ts
    | UserNotFound
    | IssMismatch
    | IatOutOfWindow
    | LifetimeOutOfRange
    | RoundNotFound
    | BadKeyLength
    | SameRound
    | EmptyJti
    | RefreshLifetimeOutOfRange
    | TypMismatch
    | IatOrExpMissing
    | ClaimMissing
    | AudMismatch
    // gateway/proxy.ts
    | NotAllCommitted
    | QuorumTooSmall(committed: int, needed: int, unreachable: seq<int>)
    | InvalidCredential
    | NodeUnreachable
    | CommitmentMissing
    // demo/sdk/client.ts
    | ThumbprintMissing
    | BadBase64
    | ShareNotDecrypted
    | BadScalar
    // dealer/src/dealer.ts
    | BadTotal
    | EmptyKeyId
    | NoUsers
    | EmptyUsername
    | EmptySub
    | DuplicateUsername
    | DuplicateSub
    // node/src/config.ts
    | NotAnObject
    | FieldMissing
    | NotAnInteger
    | BadVersion
    | BadNodeId
    | WrongShareId
    | UsersNotAnArray

  datatype Result<+T> = Ok(value: T) | Err(error: Error)

  function Last<T>(s: seq<T>): T
    requires s != []
  {
    s[|s| - 1]
  }

  function Front<T>(s: seq<T>): seq<T>
    requires s != []
  {
    s[..|s| - 1]
  }

  function Without<T>(s: seq<T>, k: nat): seq<T>
    requires k < |s|
  {
    s[..k] + s[k + 1..]
  }

  ghost predicate Distinct<T>(s: seq<T>)
  {
    forall i, j :: 0 <= i < j < |s| ==> s[i] != s[j]
  }

  function Map<A, B>(f: A -> B, s: seq<A>): (r: seq<B>)
    ensures |r| == |s|
    ensures forall i :: 0 <= i < |s| ==> r[i] == f(s[i])
  {
    seq(|s|, i requires 0 <= i < |s| => f(s[i]))
  }

  // ---- Folds -------------------------------------------------------------------------

  /** The value an accumulating loop over s ends with. */
  function Fold<A>(op: (A, A) -> A, e: A, s: seq<A>): A
  {
    if s == [] then e else op(Fold(op, e, Front(s)), Last(s))
  }

  function Plus(a: int, b: int): int { a + b }

  function Times(a: int, b: int): int { a * b }

  function Sum(s: seq<int>): int { Fold(Plus, 0, s) }

  function Product(s: seq<int>): int { Fold(Times, 1, s) }

  ghost predicate Swaps<A>(op: (A, A) -> A, ok: A -> bool, x: A, y: A, z: A)
  {
    ok(x) && ok(y) && ok(z) ==> ok(op(x, y)) && op(op(x, y), z) == op(op(x, z), y)
  }

  /** On the values that are ok, op is closed and the order of its operands does not matter. */
  ghost predicate Reorderable<A(!new)>(op: (A, A) -> A, ok: A -> bool)
  {
    forall x, y, z :: Swaps(op, ok, x, y, z)
  }

  lemma {:induction false} FoldOk<A(!new)>(op: (A, A) -> A, e: A, ok: A -> bool, s: seq<A>)
    requires Reorderable(op, ok) && ok(e) && forall i :: 0 <= i < |s| ==> ok(s[i])
    ensures ok(Fold(op, e, s))
  {
    if s != [] {
      FoldOk(op, e, ok, Front(s));
      assert Swaps(op, ok, Fold(op, e, Front(s)), Last(s), e);
    }
  }

  lemma {:induction false} FoldRemove<A(!new)>(op: (A, A) -> A, e: A, ok: A -> bool, s: seq<A>, k: nat)
    requires Reorderable(op, ok) && ok(e) && forall i :: 0 <= i < |s| ==> ok(s[i])
    requires k < |s|
    ensures Fold(op, e, s) == op(Fold(op, e, Without(s, k)), s[k])
  {
    if k == |s| - 1 {
      assert Without(s, k) == Front(s);
    } else {
      var f := Front(s);
      FoldRemove(op, e, ok, f, k);
      assert Without(s, k) == Without(f, k) + [Last(s)];
      assert Front(Without(s, k)) == Without(f, k);
      FoldOk(op, e, ok, Without(f, k));
      assert Swaps(op, ok, Fold(op, e, Without(f, k)), s[k], Last(s));
    }
  }

  /** A fold of a reorderable operation gives the same value on every permutation. */
  lemma {:induction false} FoldPermutation<A(!new)>(op: (A, A) -> A, e: A, ok: A -> bool, s: seq<A>, t: seq<A>)
    requires Reorderable(op, ok) && ok(e) && forall i :: 0 <= i < |s| ==> ok(s[i])
    requires multiset(s) == multiset(t)
    ensures Fold(op, e, s) == Fold(op, e, t)
    decreases |s|
  {
    if s == [] {
      assert |multiset(t)| == 0;
    } else {
      var k := IndexOfLast(s, t);
      PermutationAll(ok, s, t);
      FoldRemove(op, e, ok, t, k);
      FoldPermutation(op, e, ok, Front(s), Without(t, k));
    }
  }

  /** Taking one element out of a sequence takes one occurrence out of its multiset. */
  lemma WithoutCount<A>(t: seq<A>, k: nat)
    requires k < |t|
    ensures multiset(t) == multiset(Without(t, k)) + multiset{t[k]}
  {
    assert t == t[..k] + [t[k]] + t[k + 1..];
    assert multiset(t) == multiset(t[..k]) + multiset{t[k]} + multiset(t[k + 1..]);
    assert multiset(Without(t, k)) == multiset(t[..k]) + multiset(t[k + 1..]);
  }

  lemma FrontCount<A>(s: seq<A>)
    requires s != []
    ensures multiset(s) == multiset(Front(s)) + multiset{Last(s)}
  {
    assert s == Front(s) + [Last(s)];
  }

  lemma SameRest<A>(a: multiset<A>, b: multiset<A>, x: A)
    requires a + multiset{x} == b + multiset{x}
    ensures a == b
  {
    assert a == (a + multiset{x}) - multiset{x};
    assert b == (b + multiset{x}) - multiset{x};
  }

  lemma InPermutation<A>(s: seq<A>, t: seq<A>, x: A)
    requires multiset(s) == multiset(t) && x in s
    ensures x in t
  {
    assert x in multiset(s);
    assert x in multiset(t);
  }

  /** The last element of s has a place in every permutation t, and the rests are permutations too. */
  lemma IndexOfLast<A>(s: seq<A>, t: seq<A>) returns (k: nat)
    requires s != [] && multiset(s) == multiset(t)
    ensures k < |t| && t[k] == Last(s)
    ensures multiset(Front(s)) == multiset(Without(t, k))
  {
    InPermutation(s, t, Last(s));
    k :| 0 <= k < |t| && t[k] == Last(s);
    FrontCount(s);
    WithoutCount(t, k);
    hide Without, Front;
    SameRest(multiset(Front(s)), multiset(Without(t, k)), Last(s));
  }

  lemma FrontPermutation<A>(s: seq<A>, t: seq<A>)
    requires s != [] && t != [] && multiset(s) == multiset(t) && Last(s) == Last(t)
    ensures multiset(Front(s)) == multiset(Front(t))
  {
    FrontCount(s);
    FrontCount(t);
    hide Front;
    SameRest(multiset(Front(s)), multiset(Front(t)), Last(s));
  }

  lemma PermutationAll<A>(ok: A -> bool, s: seq<A>, t: seq<A>)
    requires multiset(s) == multiset(t) && forall i :: 0 <= i < |s| ==> ok(s[i])
    ensures |s| == |t| && forall i :: 0 <= i < |t| ==> ok(t[i])
  {
    assert |s| == |multiset(s)| == |multiset(t)| == |t|;
    forall i | 0 <= i < |t|
      ensures ok(t[i])
    {
      assert t[i] in multiset(t);
      assert t[i] in s;
    }
  }

  predicate AnyInt(x: int) { true }

  lemma PlusReorders()
    ensures Reorderable(Plus, AnyInt)
  {
    forall x: int, y: int, z: int
      ensures Swaps(Plus, AnyInt, x, y, z)
    {
    }
  }

  lemma TimesReorders()
    ensures Reorderable(Times, AnyInt)
  {
    forall x: int, y: int, z: int
      ensures Swaps(Times, AnyInt, x, y, z)
    {
      assert (x * y) * z == (x * z) * y;
    }
  }

  lemma SumPermutation(s: seq<int>, t: seq<int>)
    requires multiset(s) == multiset(t)
    ensures Sum(s) == Sum(t)
  {
    PlusReorders();
    FoldPermutation(Plus, 0, AnyInt, s, t);
  }

  lemma ProductPermutation(s: seq<int>, t: seq<int>)
    requires multiset(s) == multiset(t)
    ensures Product(s) == Product(t)
  {
    TimesReorders();
    FoldPermutation(Times, 1, AnyInt, s, t);
  }

  // ---- Permutations ------------------------------------------------------------------

  lemma {:induction false} DistinctCount<A>(s: seq<A>, x: A)
    requires Distinct(s)
    ensures multiset(s)[x] == if x in s then 1 else 0
  {
    if s != [] {
      DistinctCount(Front(s), x);
      assert s == Front(s) + [Last(s)];
      assert multiset(s)[x] == multiset(Front(s))[x] + multiset{Last(s)}[x];
    }
  }

  /** Sequences without repetitions that have the same elements are permutations of each other. */
  lemma DistinctSameElements<A>(s: seq<A>, t: seq<A>)
    requires Distinct(s) && Distinct(t)
    requires forall x :: x in s <==> x in t
    ensures multiset(s) == multiset(t)
  {
    forall x
      ensures multiset(s)[x] == multiset(t)[x]
    {
      DistinctCount(s, x);
      DistinctCount(t, x);
    }
  }

  lemma MapWithout<A, B>(f: A -> B, t: seq<A>, k: nat)
    requires k < |t|
    ensures Map(f, Without(t, k)) == Without(Map(f, t), k)
  {
  }

  lemma {:induction false} MapPermutation<A, B>(f: A -> B, s: seq<A>, t: seq<A>)
    requires multiset(s) == multiset(t)
    ensures multiset(Map(f, s)) == multiset(Map(f, t))
    decreases |s|
  {
    if s == [] {
      assert |multiset(t)| == 0;
      assert t == [];
    } else {
      var k := IndexOfLast(s, t);
      MapPermutation(f, Front(s), Without(t, k));
      MapWithout(f, t, k);
      MapWithout(f, s, |s| - 1);
      assert Without(s, |s| - 1) == Front(s);
      WithoutCount(Map(f, s), |s| - 1);
      WithoutCount(Map(f, t), k);
      hide Without, Map;
    }
  }

  lemma DistinctPermutation<A>(s: seq<A>, t: seq<A>)
    requires Distinct(s) && multiset(s) == multiset(t)
    ensures Distinct(t)
  {
    forall i, j | 0 <= i < j < |t|
      ensures t[i] != t[j]
    {
      if t[i] == t[j] {
        CountTwice(t, i, j);
        DistinctCount(s, t[i]);
      }
    }
  }

  lemma CountTwice<A>(t: seq<A>, i: nat, j: nat)
    requires i < j < |t| && t[i] == t[j]
    ensures multiset(t)[t[i]] >= 2
  {
    assert t == t[..i] + [t[i]] + t[i + 1..j] + [t[j]] + t[j + 1..];
  }

  // ---- Sorting -----------------------------------------------------------------------

  /** Puts x after every element that does not come after it, as a stable insertion does. */
  function InsertBy<A>(leq: (A, A) -> bool, x: A, s: seq<A>): seq<A>
  {
    if s == [] || leq(Last(s), x) then s + [x] else InsertBy(leq, x, Front(s)) + [Last(s)]
  }

  function SortBy<A>(leq: (A, A) -> bool, s: seq<A>): seq<A>
  {
    if s == [] then [] else InsertBy(leq, Last(s), SortBy(leq, Front(s)))
  }

  ghost predicate SortedBy<A>(leq: (A, A) -> bool, s: seq<A>)
  {
    forall i, j :: 0 <= i < j < |s| ==> leq(s[i], s[j])
  }

  ghost predicate Compares<A>(leq: (A, A) -> bool, x: A, y: A, z: A)
  {
    (leq(x, y) || leq(y, x)) && (leq(x, y) && leq(y, z) ==> leq(x, z))
  }

  ghost predicate TotalPreorder<A(!new)>(leq: (A, A) -> bool)
  {
    forall x, y, z :: Compares(leq, x, y, z)
  }

  lemma {:induction false} InsertByPermutes<A>(leq: (A, A) -> bool, x: A, s: seq<A>)
    ensures multiset(InsertBy(leq, x, s)) == multiset(s) + multiset{x}
  {
    if s != [] && !leq(Last(s), x) {
      InsertByPermutes(leq, x, Front(s));
      FrontCount(s);
    }
  }

  lemma {:induction false} InsertBySorts<A(!new)>(leq: (A, A) -> bool, x: A, s: seq<A>)
    requires TotalPreorder(leq) && SortedBy(leq, s)
    ensures SortedBy(leq, InsertBy(leq, x, s))
  {
    if s != [] {
      var l := Last(s);
      assert Compares(leq, x, l, l);
      if leq(l, x) {
        forall i | 0 <= i < |s|
          ensures leq(s[i], x)
        {
          assert Compares(leq, s[i], l, x);
          assert i < |s| - 1 ==> leq(s[i], s[|s| - 1]);
        }
      } else {
        InsertBySorts(leq, x, Front(s));
        InsertByPermutes(leq, x, Front(s));
        var r := InsertBy(leq, x, Front(s));
        forall i | 0 <= i < |r|
          ensures leq(r[i], l)
        {
          assert r[i] in multiset(r);
          assert r[i] in Front(s) || r[i] == x;
        }
      }
    }
  }

  /** Sorting by a total preorder gives a sorted permutation. */
  lemma {:induction false} SortBySorts<A(!new)>(leq: (A, A) -> bool, s: seq<A>)
    requires TotalPreorder(leq)
    ensures SortedBy(leq, SortBy(leq, s)) && multiset(SortBy(leq, s)) == multiset(s)
  {
    if s != [] {
      SortBySorts(leq, Front(s));
      InsertBySorts(leq, Last(s), SortBy(leq, Front(s)));
      InsertByPermutes(leq, Last(s), SortBy(leq, Front(s)));
      FrontCount(s);
      hide TotalPreorder, InsertBy;
    }
  }

  lemma SortOne<A>(leq: (A, A) -> bool, x: A)
    ensures SortBy(leq, [x]) == [x]
  {
    assert Front([x]) == [];
    assert SortBy(leq, []) == [];
  }

  /** Elements of a that come before each other are equal. */
  ghost predicate NoTies<A>(leq: (A, A) -> bool, a: seq<A>)
  {
    forall i, j :: 0 <= i < |a| && 0 <= j < |a| && leq(a[i], a[j]) && leq(a[j], a[i]) ==> a[i] == a[j]
  }

  /** Without ties there is only one way to sort. */
  lemma {:induction false} SortedUnique<A(!new)>(leq: (A, A) -> bool, a: seq<A>, b: seq<A>)
    requires TotalPreorder(leq) && SortedBy(leq, a) && SortedBy(leq, b) && NoTies(leq, a) && multiset(a) == multiset(b)
    ensures a == b
    decreases |a|
  {
    assert |a| == |multiset(a)| == |multiset(b)| == |b|;
    if a != [] {
      InPermutation(a, b, Last(a));
      InPermutation(b, a, Last(b));
      LastIsLargest(leq, a, Last(b));
      LastIsLargest(leq, b, Last(a));
      FrontPermutation(a, b);
      SortedUnique(leq, Front(a), Front(b));
      assert a == Front(a) + [Last(a)] && b == Front(b) + [Last(b)];
    }
  }

  lemma LastIsLargest<A(!new)>(leq: (A, A) -> bool, a: seq<A>, x: A)
    requires TotalPreorder(leq) && SortedBy(leq, a) && x in a
    ensures leq(x, Last(a))
  {
    assert Compares(leq, x, x, x);
  }

  // ---- Pieces ----------------------------------------------------------------------

  lemma Regroup<A>(a: seq<A>, b: seq<A>, c: seq<A>)
    ensures a + b + c == a + (b + c)
  {
  }

  lemma MapSnoc<A, B>(f: A -> B, s: seq<A>)
    requires s != []
    ensures Map(f, s) == Map(f, Front(s)) + [f(Last(s))]
  {
  }

  /** Extending a prefix by one element, as a loop over s does. */
  lemma PrefixStep<A>(s: seq<A>, i: nat)
    requires i < |s|
    ensures s[..i + 1] != [] && Front(s[..i + 1]) == s[..i] && Last(s[..i + 1]) == s[i]
  {
  }
}
