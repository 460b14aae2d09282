/** The deterministic serialisation of projects/node/src/jwt/jwt.ts: object keys sorted at every level. */
module CanonicalJson {
  import opened Seqs
  import opened Json

  // ---- The key order -----------------------------------------------------------------

  /** Where a character stands when strings are compared by UTF-16 code units. */
  function Rank(c: char): int
  {
    var n := c as int;
    if 0xE000 <= n < 0x1_0000 then n + 0x11_0000 else n
  }

  /** The order of Array.prototype.sort on strings. */
  predicate KeyLess(a: string, b: string)
  {
    b != "" && (a == "" || Rank(a[0]) < Rank(b[0]) || (a[0] == b[0] && KeyLess(a[1..], b[1..])))
  }

  /** The UTF-16 code units of a character. */
  function Units(c: char): seq<int>
  {
    var n := c as int;
    if n < 0x1_0000 then [n] else [0xD800 + (n - 0x1_0000) / 1024, 0xDC00 + (n - 0x1_0000) % 1024]
  }

  /** A character beyond the first plane is a high and a low surrogate that spell it. */
  lemma UnitsSpell(c: char)
    ensures var n, u := c as int, Units(c);
            if n < 0x1_0000 then u == [n]
            else |u| == 2 && 0xD800 <= u[0] < 0xDC00 <= u[1] < 0xE000
                 && n == 0x1_0000 + (u[0] - 0xD800) * 1024 + (u[1] - 0xDC00)
  {
  }

  function Utf16(s: string): seq<int>
  {
    if s == "" then [] else Units(s[0]) + Utf16(s[1..])
  }

  predicate UnitsLess(a: seq<int>, b: seq<int>)
  {
    b != [] && (a == [] || a[0] < b[0] || (a[0] == b[0] && UnitsLess(a[1..], b[1..])))
  }

  /** KeyLess is the lexicographic order of the code units. */
  lemma {:induction false} KeyLessIsUtf16Order(a: string, b: string)
    ensures KeyLess(a, b) <==> UnitsLess(Utf16(a), Utf16(b))
  {
    if a != "" && b != "" {
      var u, v := Units(a[0]), Units(b[0]);
      var x, y := Utf16(a[1..]), Utf16(b[1..]);
      assert (u + x)[0] == u[0] && (v + y)[0] == v[0];
      if a[0] == b[0] {
        KeyLessIsUtf16Order(a[1..], b[1..]);
        UnitsLessPrefix(u, x, y);
      } else if u[0] == v[0] {
        assert |u| == 2 && |v| == 2;
        assert (u + x)[1..] == [u[1]] + x && (v + y)[1..] == [v[1]] + y;
      }
    }
  }

  lemma {:induction false} UnitsLessPrefix(u: seq<int>, x: seq<int>, y: seq<int>)
    ensures UnitsLess(u + x, u + y) <==> UnitsLess(x, y)
  {
    if u == [] {
      assert u + x == x && u + y == y;
    } else {
      assert (u + x)[1..] == u[1..] + x && (u + y)[1..] == u[1..] + y;
      UnitsLessPrefix(u[1..], x, y);
    }
  }

  lemma {:induction false} KeyLessTrichotomy(a: string, b: string)
    ensures KeyLess(a, b) ==> a != b && !KeyLess(b, a)
    ensures a != b ==> KeyLess(a, b) || KeyLess(b, a)
  {
    if a != "" && b != "" {
      KeyLessTrichotomy(a[1..], b[1..]);
      if a[0] == b[0] && a[1..] == b[1..] {
        assert a == [a[0]] + a[1..] == b;
      }
    }
  }

  lemma {:induction false} KeyLessTransitive(a: string, b: string, c: string)
    requires KeyLess(a, b) && KeyLess(b, c)
    ensures KeyLess(a, c)
  {
    if a != "" && a[0] == b[0] == c[0] {
      KeyLessTransitive(a[1..], b[1..], c[1..]);
    }
  }

  // ---- Sorting members ---------------------------------------------------------------

  /** Keys in the order of sort(): not after each other. */
  predicate MemberLeq(a: Member, b: Member) { !KeyLess(b.key, a.key) }

  function SortMembers(ms: seq<Member>): seq<Member> { SortBy(MemberLeq, ms) }

  ghost predicate Sorted(ms: seq<Member>)
  {
    forall i, j :: 0 <= i < j < |ms| ==> KeyLess(ms[i].key, ms[j].key)
  }

  lemma MembersCompare()
    ensures TotalPreorder(MemberLeq)
  {
    forall x: Member, y: Member, z: Member
      ensures Compares(MemberLeq, x, y, z)
    {
      KeyLessTrichotomy(x.key, y.key);
      KeyLessTrichotomy(y.key, z.key);
      if KeyLess(z.key, x.key) && !KeyLess(y.key, x.key) && x.key != y.key {
        KeyLessTransitive(z.key, x.key, y.key);
      }
    }
  }

  lemma SortPermutes(ms: seq<Member>)
    ensures multiset(SortMembers(ms)) == multiset(ms)
  {
    MembersCompare();
    SortBySorts(MemberLeq, ms);
  }

  /** Keys that differ end up in strictly ascending order. */
  lemma SortSorts(ms: seq<Member>)
    requires DistinctKeys(ms)
    ensures Sorted(SortMembers(ms))
  {
    MembersCompare();
    SortBySorts(MemberLeq, ms);
    var r := SortMembers(ms);
    KeysPermuted(ms, r);
    hide SortMembers, SortBy, KeyLess;
    forall i, j | 0 <= i < j < |r|
      ensures KeyLess(r[i].key, r[j].key)
    {
      assert MemberLeq(r[i], r[j]);
      KeyLessTrichotomy(r[i].key, r[j].key);
    }
  }

  lemma KeysPermuted(ms: seq<Member>, ns: seq<Member>)
    requires DistinctKeys(ms) && multiset(ms) == multiset(ns)
    ensures DistinctKeys(ns)
  {
    MapPermutation(KeyOf, ms, ns);
    assert Distinct(Map(KeyOf, ms));
    DistinctPermutation(Map(KeyOf, ms), Map(KeyOf, ns));
    forall i, j | 0 <= i < j < |ns|
      ensures ns[i].key != ns[j].key
    {
      assert Map(KeyOf, ns)[i] != Map(KeyOf, ns)[j];
    }
  }

  function KeyOf(m: Member): string { m.key }

  lemma SortedIsDistinct(ms: seq<Member>)
    requires Sorted(ms)
    ensures DistinctKeys(ms)
  {
    forall i, j | 0 <= i < j < |ms|
      ensures ms[i].key != ms[j].key
    {
      KeyLessTrichotomy(ms[i].key, ms[j].key);
    }
  }

  // ---- What a value means ------------------------------------------------------------

  /** A value with its objects read as maps from keys to values: insertion order is gone. */
  datatype Value =
    | VNull
    | VBool(b: bool)
    | VNum(n: int)
    | VStr(s: string)
    | VArr(items: seq<Value>)
    | VObj(fields: map<string, Value>)

  function Meaning(v: Json): Value
  {
    match v
    case Null => VNull
    case Bool(b) => VBool(b)
    case Num(n) => VNum(n)
    case Str(s) => VStr(s)
    case Arr(items) => VArr(ItemMeanings(items))
    case Obj(ms) => VObj(FieldMap(ms))
  }

  function ItemMeanings(items: seq<Json>): seq<Value>
  {
    if items == [] then [] else [Meaning(items[0])] + ItemMeanings(items[1..])
  }

  function FieldMap(ms: seq<Member>): map<string, Value>
  {
    if ms == [] then map[] else FieldMap(ms[1..])[ms[0].key := Meaning(ms[0].value)]
  }

  lemma {:induction false} FieldMapKeys(ms: seq<Member>)
    ensures forall k :: k in FieldMap(ms) <==> HasKey(ms, k)
  {
    if ms != [] {
      FieldMapKeys(ms[1..]);
      forall k
        ensures k in FieldMap(ms) <==> HasKey(ms, k)
      {
        if HasKey(ms[1..], k) {
          var i :| 0 <= i < |ms[1..]| && ms[1..][i].key == k;
          assert ms[i + 1].key == k;
        }
        if HasKey(ms, k) {
          var i :| 0 <= i < |ms| && ms[i].key == k;
          assert i > 0 ==> ms[1..][i - 1].key == k;
        }
      }
    }
  }

  lemma {:induction false} FieldMapValue(ms: seq<Member>, i: nat)
    requires i < |ms| && DistinctKeys(ms)
    ensures ms[i].key in FieldMap(ms) && FieldMap(ms)[ms[i].key] == Meaning(ms[i].value)
  {
    if i > 0 {
      assert ms[1..][i - 1] == ms[i];
      FieldMapValue(ms[1..], i - 1);
    }
  }

  lemma SameEntries(ms: seq<Member>, ns: seq<Member>)
    requires DistinctKeys(ms) && DistinctKeys(ns) && multiset(ms) == multiset(ns)
    ensures forall k :: k in FieldMap(ms) ==> k in FieldMap(ns) && FieldMap(ns)[k] == FieldMap(ms)[k]
  {
    hide Meaning, FieldMap;
    forall k | k in FieldMap(ms)
      ensures k in FieldMap(ns) && FieldMap(ns)[k] == FieldMap(ms)[k]
    {
      FieldMapKeys(ms);
      var i :| 0 <= i < |ms| && ms[i].key == k;
      assert ms[i] in multiset(ms);
      assert ms[i] in ns;
      var j :| 0 <= j < |ns| && ns[j] == ms[i];
      FieldMapValue(ms, i);
      FieldMapValue(ns, j);
    }
  }

  /** Sorting the members does not change what the object means. */
  lemma SortMeaning(ms: seq<Member>)
    requires DistinctKeys(ms)
    ensures FieldMap(SortMembers(ms)) == FieldMap(ms)
  {
    var r := SortMembers(ms);
    SortPermutes(ms);
    KeysPermuted(ms, r);
    SameEntries(ms, r);
    SameEntries(r, ms);
    hide Meaning, FieldMap, SortMembers;
  }

  // ---- The canonical value -----------------------------------------------------------

  /** The value with every object's members sorted by key. */
  function Canon(v: Json): Json
  {
    match v
    case Arr(items) => Arr(CanonItems(items))
    case Obj(ms) => Obj(SortMembers(CanonMembers(ms)))
    case _ => v
  }

  function CanonItems(items: seq<Json>): (r: seq<Json>)
    ensures |r| == |items| && forall i :: 0 <= i < |items| ==> r[i] == Canon(items[i])
  {
    if items == [] then [] else [Canon(items[0])] + CanonItems(items[1..])
  }

  function CanonMembers(ms: seq<Member>): (r: seq<Member>)
    ensures |r| == |ms| && forall i :: 0 <= i < |ms| ==> r[i] == Member(ms[i].key, Canon(ms[i].value))
  {
    if ms == [] then [] else [Member(ms[0].key, Canon(ms[0].value))] + CanonMembers(ms[1..])
  }

  /** deterministicJsonStringify */
  function Stringify(v: Json): string { Text(Canon(v)) }

  /** Every object in the value lists its members in key order. */
  ghost predicate IsCanonical(v: Json)
  {
    match v
    case Arr(items) => forall i :: 0 <= i < |items| ==> IsCanonical(items[i])
    case Obj(ms) => Sorted(ms) && forall i :: 0 <= i < |ms| ==> IsCanonical(ms[i].value)
    case _ => true
  }

  lemma {:induction false} CanonicalWellFormed(v: Json)
    requires IsCanonical(v)
    ensures WellFormed(v)
  {
    match v
    case Arr(items) =>
      forall i | 0 <= i < |items|
        ensures WellFormed(items[i])
      {
        CanonicalWellFormed(items[i]);
      }
    case Obj(ms) =>
      SortedIsDistinct(ms);
      forall i | 0 <= i < |ms|
        ensures WellFormed(ms[i].value)
      {
        CanonicalWellFormed(ms[i].value);
      }
    case _ =>
  }

  lemma {:induction false} CanonIsCanonical(v: Json)
    requires WellFormed(v)
    ensures IsCanonical(Canon(v))
  {
    match v
    case Arr(items) =>
      forall i | 0 <= i < |items|
        ensures IsCanonical(Canon(items[i]))
      {
        CanonIsCanonical(items[i]);
      }
    case Obj(ms) =>
      var c := CanonMembers(ms);
      var s := SortMembers(c);
      SortSorts(c);
      SortPermutes(c);
      forall k | 0 <= k < |s|
        ensures IsCanonical(s[k].value)
      {
        assert s[k] in multiset(s);
        assert s[k] in c;
        var i :| 0 <= i < |c| && c[i] == s[k];
        CanonIsCanonical(ms[i].value);
      }
    case _ =>
  }

  lemma {:induction false} CanonMeaning(v: Json)
    requires WellFormed(v)
    ensures Meaning(Canon(v)) == Meaning(v)
    decreases v, 1
  {
    match v
    case Arr(items) => CanonItemMeanings(items);
    case Obj(ms) =>
      CanonMemberMeanings(ms);
      SortMeaning(CanonMembers(ms));
    case _ =>
  }

  lemma {:induction false} CanonItemMeanings(items: seq<Json>)
    requires forall i :: 0 <= i < |items| ==> WellFormed(items[i])
    ensures ItemMeanings(CanonItems(items)) == ItemMeanings(items)
    decreases items, 0
  {
    if items != [] {
      CanonMeaning(items[0]);
      CanonItemMeanings(items[1..]);
      assert CanonItems(items)[1..] == CanonItems(items[1..]);
    }
  }

  lemma {:induction false} CanonMemberMeanings(ms: seq<Member>)
    requires forall i :: 0 <= i < |ms| ==> WellFormed(ms[i].value)
    ensures FieldMap(CanonMembers(ms)) == FieldMap(ms)
    decreases ms, 0
  {
    if ms != [] {
      CanonMeaning(ms[0].value);
      CanonMemberMeanings(ms[1..]);
      assert CanonMembers(ms)[1..] == CanonMembers(ms[1..]);
    }
  }

  /** A canonical value is determined by what it means. */
  lemma {:induction false} CanonicalDetermined(v: Json, w: Json)
    requires IsCanonical(v) && IsCanonical(w) && Meaning(v) == Meaning(w)
    ensures v == w
    decreases v, 1
  {
    match (v, w)
    case (Arr(a), Arr(b)) => ItemsDetermined(a, b);
    case (Obj(a), Obj(b)) => MembersDetermined(a, b);
    case (_, _) =>
  }

  lemma {:induction false} ItemsDetermined(a: seq<Json>, b: seq<Json>)
    requires forall i :: 0 <= i < |a| ==> IsCanonical(a[i])
    requires forall i :: 0 <= i < |b| ==> IsCanonical(b[i])
    requires ItemMeanings(a) == ItemMeanings(b)
    ensures a == b
    decreases a, 0
  {
    if a != [] && b != [] {
      assert ItemMeanings(a)[1..] == ItemMeanings(a[1..]) && ItemMeanings(b)[1..] == ItemMeanings(b[1..]);
      CanonicalDetermined(a[0], b[0]);
      ItemsDetermined(a[1..], b[1..]);
      assert a == [a[0]] + a[1..] && b == [b[0]] + b[1..];
    }
  }

  lemma {:induction false} MembersDetermined(a: seq<Member>, b: seq<Member>)
    requires Sorted(a) && forall i :: 0 <= i < |a| ==> IsCanonical(a[i].value)
    requires Sorted(b) && forall i :: 0 <= i < |b| ==> IsCanonical(b[i].value)
    requires FieldMap(a) == FieldMap(b)
    ensures a == b
    decreases a, 0
  {
    FieldMapKeys(a);
    FieldMapKeys(b);
    assert b != [] ==> HasKey(b, b[0].key);
    if a != [] {
      assert HasKey(a, a[0].key);
      assert HasKey(b, b[0].key);
      HeadIsLeast(a, b[0].key);
      HeadIsLeast(b, a[0].key);
      KeyLessTrichotomy(a[0].key, b[0].key);
      assert FieldMap(a)[a[0].key] == Meaning(a[0].value);
      CanonicalDetermined(a[0].value, b[0].value);
      TailMap(a);
      TailMap(b);
      MembersDetermined(a[1..], b[1..]);
      assert a == [a[0]] + a[1..] && b == [b[0]] + b[1..];
    }
  }

  lemma HeadIsLeast(ms: seq<Member>, k: string)
    requires ms != [] && Sorted(ms) && HasKey(ms, k)
    ensures k == ms[0].key || KeyLess(ms[0].key, k)
  {
  }

  lemma TailMap(ms: seq<Member>)
    requires ms != [] && Sorted(ms)
    ensures FieldMap(ms[1..]) == FieldMap(ms) - {ms[0].key}
  {
    hide Meaning;
    SortedIsDistinct(ms);
    FieldMapKeys(ms[1..]);
    assert ms[0].key !in FieldMap(ms[1..]);
    PutThenDrop(FieldMap(ms[1..]), ms[0].key, Meaning(ms[0].value));
  }

  lemma PutThenDrop<V>(m: map<string, V>, k: string, v: V)
    requires k !in m
    ensures m[k := v] - {k} == m
  {
  }

  /** The text is a function of the key-to-value map alone, and tells different values apart. */
  lemma StringifyExact(v: Json, w: Json)
    requires WellFormed(v) && WellFormed(w)
    ensures Stringify(v) == Stringify(w) <==> Meaning(v) == Meaning(w)
  {
    CanonMeaning(v);
    CanonMeaning(w);
    CanonIsCanonical(v);
    CanonIsCanonical(w);
    CanonicalWellFormed(Canon(v));
    CanonicalWellFormed(Canon(w));
    ParseUndoesText(Canon(v));
    ParseUndoesText(Canon(w));
    if Meaning(v) == Meaning(w) {
      CanonicalDetermined(Canon(v), Canon(w));
    }
  }

  /** Reading the text back gives the value again, with its keys in canonical order. */
  lemma ParseUndoesStringify(v: Json)
    requires WellFormed(v)
    ensures Parse(Stringify(v)) == Some(Canon(v)) && Meaning(Canon(v)) == Meaning(v)
  {
    CanonIsCanonical(v);
    CanonicalWellFormed(Canon(v));
    ParseUndoesText(Canon(v));
    CanonMeaning(v);
  }

  lemma CanonIdempotent(v: Json)
    requires WellFormed(v)
    ensures Canon(Canon(v)) == Canon(v)
  {
    CanonIsCanonical(v);
    CanonOfCanonical(Canon(v));
  }

  lemma CanonOfCanonical(v: Json)
    requires IsCanonical(v)
    ensures Canon(v) == v
  {
    CanonicalWellFormed(v);
    CanonMeaning(v);
    CanonIsCanonical(v);
    CanonicalDetermined(Canon(v), v);
  }

  /** Inserting an object's properties in another order does not change the text. */
  lemma InsertionOrderIrrelevant(ms: seq<Member>, ns: seq<Member>)
    requires WellFormed(Obj(ms)) && WellFormed(Obj(ns)) && multiset(ms) == multiset(ns)
    ensures Stringify(Obj(ms)) == Stringify(Obj(ns))
  {
    hide Meaning;
    SameEntries(ms, ns);
    SameEntries(ns, ms);
    assert FieldMap(ms).Keys == FieldMap(ns).Keys;
    MeaningOfObject(ms);
    MeaningOfObject(ns);
    StringifyExact(Obj(ms), Obj(ns));
  }

  lemma MeaningOfObject(ms: seq<Member>)
    ensures Meaning(Obj(ms)) == VObj(FieldMap(ms))
  {
  }

  /** A property of the canonical value is the canonical form of the property. */
  lemma {:induction false} CanonField(v: Json, k: string)
    requires WellFormed(v)
    ensures Field(Canon(v), k) == match Field(v, k) case None => None case Some(w) => Some(Canon(w))
  {
    if v.Obj? {
      var c := CanonMembers(v.members);
      SortSorts(c);
      SortedIsDistinct(SortMembers(c));
      SortPermutes(c);
      FindPermuted(c, SortMembers(c), k);
      FindCanon(v.members, k);
    }
  }

  lemma {:induction false} FindCanon(ms: seq<Member>, k: string)
    ensures Find(CanonMembers(ms), k) == match Find(ms, k) case None => None case Some(w) => Some(Canon(w))
  {
    if ms != [] {
      FindCanon(ms[1..], k);
      assert CanonMembers(ms)[1..] == CanonMembers(ms[1..]);
    }
  }

  lemma {:induction false} FindAt(ms: seq<Member>, i: nat)
    requires i < |ms| && DistinctKeys(ms)
    ensures Find(ms, ms[i].key) == Some(ms[i].value)
  {
    if i > 0 {
      assert ms[1..][i - 1] == ms[i];
      FindAt(ms[1..], i - 1);
    }
  }

  lemma {:induction false} FindNone(ms: seq<Member>, k: string)
    ensures Find(ms, k).Some? ==> exists i :: 0 <= i < |ms| && ms[i].key == k
  {
    if ms != [] && ms[0].key != k {
      FindNone(ms[1..], k);
      if Find(ms, k).Some? {
        var i :| 0 <= i < |ms[1..]| && ms[1..][i].key == k;
        assert ms[i + 1].key == k;
      }
    }
  }

  lemma FindPermuted(ms: seq<Member>, ns: seq<Member>, k: string)
    requires DistinctKeys(ms) && DistinctKeys(ns) && multiset(ms) == multiset(ns)
    ensures Find(ms, k) == Find(ns, k)
  {
    FindInto(ms, ns, k);
    FindInto(ns, ms, k);
  }

  lemma FindInto(ms: seq<Member>, ns: seq<Member>, k: string)
    requires DistinctKeys(ms) && DistinctKeys(ns) && multiset(ms) == multiset(ns)
    ensures Find(ms, k).Some? ==> Find(ns, k) == Find(ms, k)
  {
    FindNone(ms, k);
    if Find(ms, k).Some? {
      var i :| 0 <= i < |ms| && ms[i].key == k;
      assert ms[i] in multiset(ms);
      assert ms[i] in ns;
      var j :| 0 <= j < |ns| && ns[j] == ms[i];
      FindAt(ms, i);
      FindAt(ns, j);
    }
  }
}
