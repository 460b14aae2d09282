/**
 * The text of a JSON value beyond what a reader sees: no text with the same meaning is shorter, and no
 * white space stands outside its strings.
 */
module JsonText {
  import opened Seqs
  import opened Json
  import opened CanonicalJson

  // ---- Sizes -------------------------------------------------------------------------

  function MemberText(m: Member): string { Quote(m.key) + ":" + Text(m.value) }

  /** What items and members take, each with one character that separates or closes. */
  function ItemsSize(items: seq<Json>): nat
  {
    if items == [] then 0 else |Text(items[0])| + 1 + ItemsSize(items[1..])
  }

  function MembersSize(ms: seq<Member>): nat
  {
    if ms == [] then 0 else |MemberText(ms[0])| + 1 + MembersSize(ms[1..])
  }

  lemma {:induction false} ItemsTextSize(items: seq<Json>)
    requires items != []
    ensures |ItemsText(items)| + 1 == ItemsSize(items)
  {
    hide Text;
    if |items| == 1 {
      assert items[1..] == [];
    } else {
      ItemsTextSize(items[1..]);
    }
  }

  lemma {:induction false} MembersTextSize(ms: seq<Member>)
    requires ms != []
    ensures |MembersText(ms)| + 1 == MembersSize(ms)
  {
    hide Text, Quote;
    if |ms| == 1 {
      assert ms[1..] == [];
    } else {
      MembersTextSize(ms[1..]);
    }
  }

  lemma ArraySize(items: seq<Json>)
    ensures |Text(Arr(items))| == if items == [] then 2 else ItemsSize(items) + 1
  {
    hide ItemsText, ItemsSize;
    if items != [] {
      ItemsTextSize(items);
    } else {
      assert ItemsText(items) == "" by { ItemsStart(items); }
    }
  }

  lemma ObjectSize(ms: seq<Member>)
    ensures |Text(Obj(ms))| == if ms == [] then 2 else MembersSize(ms) + 1
  {
    hide MembersText, MembersSize;
    if ms != [] {
      MembersTextSize(ms);
    } else {
      assert MembersText(ms) == "" by { MembersStart(ms); }
    }
  }

  lemma {:induction false} ItemsSizeSnoc(items: seq<Json>, v: Json)
    ensures ItemsSize(items + [v]) == ItemsSize(items) + |Text(v)| + 1
  {
    hide Text;
    if items == [] {
      assert (items + [v])[1..] == [];
    } else {
      ItemsSizeSnoc(items[1..], v);
      assert (items + [v])[1..] == items[1..] + [v];
    }
  }

  /** Assigning a member never takes more than appending it. */
  lemma {:induction false} MembersSizePut(ms: seq<Member>, k: string, v: Json)
    ensures Put(ms, k, v) != []
    ensures MembersSize(Put(ms, k, v)) <= MembersSize(ms) + |MemberText(Member(k, v))| + 1
  {
    hide MemberText;
    var r := Put(ms, k, v);
    if ms == [] {
      assert r[1..] == [];
    } else if ms[0].key == k {
      assert r[1..] == ms[1..];
    } else {
      MembersSizePut(ms[1..], k, v);
      assert r[1..] == Put(ms[1..], k, v);
    }
  }

  // ---- Values that the reader gives --------------------------------------------------

  lemma {:induction false} PutKeys(ms: seq<Member>, k: string, v: Json)
    ensures forall x :: HasKey(Put(ms, k, v), x) <==> HasKey(ms, x) || x == k
  {
    var r := Put(ms, k, v);
    HeadKey(r);
    if ms == [] {
      assert r[1..] == ms;
    } else {
      HeadKey(ms);
      hide HasKey;
      if ms[0].key == k {
        assert r[1..] == ms[1..];
      } else {
        PutKeys(ms[1..], k, v);
        assert r[1..] == Put(ms[1..], k, v);
      }
    }
  }

  lemma {:induction false} PutDistinct(ms: seq<Member>, k: string, v: Json)
    requires DistinctKeys(ms)
    ensures DistinctKeys(Put(ms, k, v))
  {
    var r := Put(ms, k, v);
    if ms != [] && ms[0].key != k {
      var t := Put(ms[1..], k, v);
      PutDistinct(ms[1..], k, v);
      PutKeys(ms[1..], k, v);
      HeadApart(ms);
      hide Put, HasKey;
      ConsDistinct(ms[0], t);
    }
  }

  lemma ConsDistinct(m: Member, t: seq<Member>)
    requires DistinctKeys(t) && !HasKey(t, m.key)
    ensures DistinctKeys([m] + t)
  {
    var r := [m] + t;
    forall i, j | 0 <= i < j < |r|
      ensures r[i].key != r[j].key
    {
      assert r[j] == t[j - 1];
    }
  }

  ghost predicate ValuesOk(ms: seq<Member>)
  {
    forall i :: 0 <= i < |ms| ==> WellFormed(ms[i].value)
  }

  lemma {:induction false} PutValues(ms: seq<Member>, k: string, v: Json)
    requires ValuesOk(ms) && WellFormed(v)
    ensures ValuesOk(Put(ms, k, v))
  {
    hide WellFormed;
    if ms != [] && ms[0].key != k {
      PutValues(ms[1..], k, v);
    }
  }

  lemma HeadKey(ms: seq<Member>)
    requires ms != []
    ensures forall x :: HasKey(ms, x) <==> ms[0].key == x || HasKey(ms[1..], x)
  {
    forall x
      ensures HasKey(ms, x) <==> ms[0].key == x || HasKey(ms[1..], x)
    {
      if HasKey(ms[1..], x) {
        var i :| 0 <= i < |ms[1..]| && ms[1..][i].key == x;
        assert ms[i + 1].key == x;
      }
      if HasKey(ms, x) && ms[0].key != x {
        var i :| 0 <= i < |ms| && ms[i].key == x;
        assert ms[1..][i - 1].key == x;
      }
    }
  }

  lemma HeadApart(ms: seq<Member>)
    requires ms != [] && DistinctKeys(ms)
    ensures !HasKey(ms[1..], ms[0].key)
  {
  }

  // ---- Nothing shorter reads the same ------------------------------------------------

  lemma {:induction false} CharsShortest(s: string)
    requires ParseChars(s).Done?
    ensures |EscapeAll(ParseChars(s).value)| + 1 + |ParseChars(s).rest| <= |s|
    decreases |s|
  {
    hide HexValue, HexDigit, UnicodeEscape, Unescape, Escape;
    if s[0] != '"' {
      var c := ParseChars(s).value;
      if s[0] != '\\' {
        CharsShortest(s[1..]);
        PlainLength(s[0]);
      } else if s[1] == 'u' {
        CharsShortest(s[6..]);
        EscapeLength(c[0]);
      } else {
        CharsShortest(s[2..]);
        ShortLength(s[1]);
      }
      assert c[1..] == (if s[0] != '\\' then ParseChars(s[1..]) else if s[1] == 'u' then ParseChars(s[6..])
                        else ParseChars(s[2..])).value;
    }
  }

  lemma PlainLength(c: char)
    requires c as int >= 32 && c != '"' && c != '\\'
    ensures |Escape(c)| == 1
  {
  }

  lemma ShortLength(c: char)
    ensures Unescape(c).Some? ==> |Escape(Unescape(c).value)| <= 2
  {
  }

  lemma {:induction false} NatTextOfValue(s: string)
    requires s != "" && (forall i :: 0 <= i < |s| ==> IsDigit(s[i])) && (|s| > 1 ==> s[0] != '0')
    ensures NatText(NatValue(s)) == s
    ensures |s| > 1 ==> NatValue(s) >= 10
    ensures s[0] != '0' ==> NatValue(s) > 0
  {
    var f := Front(s);
    assert s == f + [s[|s| - 1]];
    if |s| == 1 {
      assert f == "";
      assert NatValue(s) == DigitValue(s[0]);
    } else {
      NatTextOfValue(f);
      var n := NatValue(s);
      assert n / 10 == NatValue(f) && n % 10 == DigitValue(s[|s| - 1]);
    }
  }

  lemma NatShortest(s: string)
    requires ParseNat(s).Done?
    ensures |NatText(ParseNat(s).value)| + |ParseNat(s).rest| <= |s|
  {
    hide NatText, NatValue;
    DigitRunDigits(s);
    NatTextOfValue(s[..DigitRun(s)]);
  }

  lemma NumberShortest(s: string)
    requires ParseNumber(s).Done?
    ensures |Text(ParseNumber(s).value)| + |ParseNumber(s).rest| <= |s|
  {
    hide ParseNat, NatText;
    if s != "" && s[0] == '-' {
      NatShortest(s[1..]);
    } else {
      NatShortest(s);
    }
  }

  lemma ScalarShortest(t: string)
    requires t != "" && ParseScalar(t).Done?
    ensures |Text(ParseScalar(t).value)| + |ParseScalar(t).rest| <= |t| && WellFormed(ParseScalar(t).value)
  {
    hide ParseChars, EscapeAll, ParseNumber;
    if t[0] == '"' {
      CharsShortest(t[1..]);
    } else if t[0] != 'n' && t[0] != 't' && t[0] != 'f' {
      NumberShortest(t);
      NumberFlat(t);
    }
  }

  lemma NumberFlat(s: string)
    requires ParseNumber(s).Done?
    ensures ParseNumber(s).value.Num?
  {
    hide ParseNat;
  }

  /** Whatever is read as a value is at least as long as the value's text. */
  lemma {:induction false} ValueShortest(s: string)
    requires ParseValue(s).Done?
    ensures |Text(ParseValue(s).value)| + |ParseValue(s).rest| <= |s| && WellFormed(ParseValue(s).value)
    decreases |s|, 2
  {
    hide ParseScalar, ParseArray, ParseObject, Text, WellFormed;
    var t := SkipSpace(s);
    if t[0] == '[' {
      ArrayShortest(t);
    } else if t[0] == '{' {
      ObjectShortest(t);
    } else {
      ScalarShortest(t);
    }
  }

  lemma {:induction false} ArrayShortest(t: string)
    requires t != "" && ParseArray(t).Done?
    ensures |Text(ParseArray(t).value)| + |ParseArray(t).rest| <= |t| && WellFormed(ParseArray(t).value)
    decreases |t|, 1
  {
    hide ParseItems, Text, ItemsSize;
    ArraySize(ParseArray(t).value.items);
    var u := SkipSpace(t[1..]);
    if !(u != "" && u[0] == ']') {
      ItemsShortest(t[1..], []);
      assert ItemsSize([]) == 0 by { NothingSize(); }
    }
  }

  lemma {:induction false} ObjectShortest(t: string)
    requires t != "" && ParseObject(t).Done?
    ensures |Text(ParseObject(t).value)| + |ParseObject(t).rest| <= |t| && WellFormed(ParseObject(t).value)
    decreases |t|, 1
  {
    hide ParseMembers, Text, MembersSize;
    ObjectSize(ParseObject(t).value.members);
    var u := SkipSpace(t[1..]);
    if !(u != "" && u[0] == '}') {
      MembersShortest(t[1..], []);
      assert MembersSize([]) == 0 by { NothingSize(); }
    }
  }

  lemma NothingSize()
    ensures ItemsSize([]) == 0 && MembersSize([]) == 0
  {
  }

  lemma {:induction false} ItemsShortest(s: string, acc: seq<Json>)
    requires ParseItems(s, acc).Done?
    ensures ParseItems(s, acc).value != []
    ensures ItemsSize(ParseItems(s, acc).value) + |ParseItems(s, acc).rest| <= ItemsSize(acc) + |s|
    ensures (forall i :: 0 <= i < |acc| ==> WellFormed(acc[i])) ==>
              forall i :: 0 <= i < |ParseItems(s, acc).value| ==> WellFormed(ParseItems(s, acc).value[i])
    decreases |s|, 3
  {
    hide ParseValue, Text, ItemsSize, WellFormed;
    ValueShortest(s);
    var v, u := ParseValue(s).value, SkipSpace(ParseValue(s).rest);
    ItemsSizeSnoc(acc, v);
    if u[0] == ',' {
      ItemsShortest(u[1..], acc + [v]);
    }
  }

  lemma {:induction false} MembersShortest(s: string, acc: seq<Member>)
    requires ParseMembers(s, acc).Done?
    ensures ParseMembers(s, acc).value != []
    ensures MembersSize(ParseMembers(s, acc).value) + |ParseMembers(s, acc).rest| <= MembersSize(acc) + |s|
    ensures DistinctKeys(acc) && ValuesOk(acc) ==>
              DistinctKeys(ParseMembers(s, acc).value) && ValuesOk(ParseMembers(s, acc).value)
    decreases |s|, 3
  {
    hide ParseValue, ParseChars, Text, EscapeAll, MembersSize, Put, DistinctKeys, ValuesOk, WellFormed;
    var t := SkipSpace(s);
    CharsShortest(t[1..]);
    var k, c := ParseChars(t[1..]).value, SkipSpace(ParseChars(t[1..]).rest);
    ValueShortest(c[1..]);
    var v, u := ParseValue(c[1..]).value, SkipSpace(ParseValue(c[1..]).rest);
    MembersSizePut(acc, k, v);
    if DistinctKeys(acc) && ValuesOk(acc) {
      PutDistinct(acc, k, v);
      PutValues(acc, k, v);
    }
    if u[0] == ',' {
      MembersShortest(u[1..], Put(acc, k, v));
    }
  }

  lemma ParseShortest(t: string)
    requires Parse(t).Some?
    ensures |Text(Parse(t).value)| <= |t| && WellFormed(Parse(t).value)
  {
    hide ParseValue, Text, WellFormed;
    ValueShortest(t);
  }

  // ---- Canonical text ----------------------------------------------------------------

  function SizeOf(m: Member): int { |MemberText(m)| + 1 }

  lemma {:induction false} MembersSizeSum(ms: seq<Member>)
    ensures MembersSize(ms) == Sum(Map(SizeOf, ms))
    decreases |ms|
  {
    hide MemberText;
    if ms != [] {
      var f, m := Front(ms), Last(ms);
      MembersSizeSum(f);
      MembersSizeSnoc(f, m);
      assert ms == f + [m];
      assert Front(Map(SizeOf, ms)) == Map(SizeOf, f);
    }
  }

  lemma {:induction false} MembersSizeSnoc(ms: seq<Member>, m: Member)
    ensures MembersSize(ms + [m]) == MembersSize(ms) + |MemberText(m)| + 1
  {
    hide MemberText;
    if ms == [] {
      assert (ms + [m])[1..] == [];
    } else {
      MembersSizeSnoc(ms[1..], m);
      assert (ms + [m])[1..] == ms[1..] + [m];
    }
  }

  lemma SortedSize(ms: seq<Member>)
    ensures MembersSize(SortMembers(ms)) == MembersSize(ms)
  {
    hide SortMembers, SizeOf;
    SortPermutes(ms);
    MembersSizeSum(ms);
    MembersSizeSum(SortMembers(ms));
    MapPermutation(SizeOf, SortMembers(ms), ms);
    SumPermutation(Map(SizeOf, SortMembers(ms)), Map(SizeOf, ms));
  }

  /** Sorting keys keeps the length of the text. */
  lemma {:induction false} CanonSize(v: Json)
    ensures |Text(Canon(v))| == |Text(v)|
    decreases v, 1
  {
    hide Text;
    match v
    case Arr(items) =>
      ArraySize(items);
      ArraySize(CanonItems(items));
      CanonItemsSize(items);
    case Obj(ms) =>
      ObjectSize(ms);
      ObjectSize(SortMembers(CanonMembers(ms)));
      SortedSize(CanonMembers(ms));
      CanonMembersSize(ms);
      SortPermutes(CanonMembers(ms));
      SameCount(SortMembers(CanonMembers(ms)), CanonMembers(ms));
    case _ =>
  }

  lemma SameCount(a: seq<Member>, b: seq<Member>)
    requires multiset(a) == multiset(b)
    ensures |a| == |b|
  {
    assert |a| == |multiset(a)| == |multiset(b)| == |b|;
  }

  lemma {:induction false} CanonItemsSize(items: seq<Json>)
    ensures ItemsSize(CanonItems(items)) == ItemsSize(items)
    decreases items, 0
  {
    hide Text, Canon;
    if items != [] {
      CanonSize(items[0]);
      CanonItemsSize(items[1..]);
      assert CanonItems(items)[1..] == CanonItems(items[1..]);
    }
  }

  lemma {:induction false} CanonMembersSize(ms: seq<Member>)
    ensures MembersSize(CanonMembers(ms)) == MembersSize(ms)
    decreases ms, 0
  {
    hide Text, Quote, Canon;
    if ms != [] {
      CanonSize(ms[0].value);
      CanonMembersSize(ms[1..]);
      assert CanonMembers(ms)[1..] == CanonMembers(ms[1..]);
    }
  }

  /** The canonical text of a value is the shortest of all texts that mean the same. */
  lemma StringifyShortest(v: Json, t: string)
    requires WellFormed(v) && Parse(t).Some? && Meaning(Parse(t).value) == Meaning(v)
    ensures |Stringify(v)| <= |t|
  {
    hide Text, Canon, Parse, Meaning, WellFormed;
    var w := Parse(t).value;
    ParseShortest(t);
    CanonSize(w);
    StringifyExact(v, w);
  }

  // ---- White space -------------------------------------------------------------------

  /** No white space in s, other than inside strings; inside says whether s starts within one. */
  predicate Tight(s: string, inside: bool)
  {
    if s == "" then true
    else if inside && s[0] == '\\' then |s| >= 2 && Tight(s[2..], true)
    else (inside || !IsSpace(s[0])) && Tight(s[1..], inside != (s[0] == '"'))
  }

  lemma TightEscape(c: char, rest: string)
    ensures Tight(Escape(c) + rest, true) == Tight(rest, true)
  {
    hide HexDigit;
    var e := Escape(c);
    var s := e + rest;
    if |e| == 1 {
      assert s[1..] == rest;
    } else if |e| == 2 {
      assert s[2..] == rest;
    } else {
      TightUnicode(c, rest);
    }
  }

  lemma HexPlain(n: int)
    requires 0 <= n < 16
    ensures HexDigit(n) != '"' && HexDigit(n) != '\\'
  {
  }

  lemma TightPlain(c: char, rest: string)
    requires c != '"' && c != '\\'
    ensures [c] + rest != "" && ([c] + rest)[1..] == rest && Tight([c] + rest, true) == Tight(rest, true)
  {
  }

  lemma TightUnicode(c: char, rest: string)
    requires |Escape(c)| != 1 && |Escape(c)| != 2
    ensures Tight(Escape(c) + rest, true) == Tight(rest, true)
  {
    var h, l := HexDigit(c as int / 16), HexDigit(c as int % 16);
    HexPlain(c as int / 16);
    HexPlain(c as int % 16);
    hide HexDigit;
    assert Escape(c) + rest == "\\u" + (['0', '0', h, l] + rest);
    assert (Escape(c) + rest)[2..] == ['0', '0', h, l] + rest;
    assert ['0', '0', h, l] + rest == ['0'] + (['0', h, l] + rest);
    assert ['0', h, l] + rest == ['0'] + ([h, l] + rest);
    assert [h, l] + rest == [h] + ([l] + rest);
    TightPlain('0', ['0', h, l] + rest);
    TightPlain('0', [h, l] + rest);
    TightPlain(h, [l] + rest);
    TightPlain(l, rest);
  }

  lemma {:induction false} TightEscapes(t: string, rest: string)
    ensures Tight(EscapeAll(t) + "\"" + rest, true) == Tight(rest, false)
  {
    hide Escape;
    if t == "" {
      assert EscapeAll(t) + "\"" + rest == "\"" + rest && ("\"" + rest)[1..] == rest;
    } else {
      var tail := EscapeAll(t[1..]) + "\"" + rest;
      assert EscapeAll(t) + "\"" + rest == Escape(t[0]) + tail;
      TightEscape(t[0], tail);
      TightEscapes(t[1..], rest);
    }
  }

  lemma TightQuote(t: string, rest: string)
    ensures Tight(Quote(t) + rest, false) == Tight(rest, false)
  {
    hide EscapeAll;
    assert Quote(t) + rest == "\"" + (EscapeAll(t) + "\"" + rest);
    assert (Quote(t) + rest)[1..] == EscapeAll(t) + "\"" + rest;
    TightEscapes(t, rest);
  }

  /** Characters that neither are white space nor open a string. */
  predicate Bare(s: string) { forall i :: 0 <= i < |s| ==> !IsSpace(s[i]) && s[i] != '"' }

  lemma {:induction false} TightBare(s: string, rest: string)
    requires Bare(s)
    ensures Tight(s + rest, false) == Tight(rest, false)
  {
    if s == "" {
      assert s + rest == rest;
    } else {
      assert (s + rest)[1..] == s[1..] + rest;
      TightBare(s[1..], rest);
    }
  }

  lemma ScalarBare(v: Json)
    requires !v.Str? && !v.Arr? && !v.Obj?
    ensures Bare(Text(v))
  {
    hide NatText;
  }

  lemma {:induction false} TightText(v: Json, rest: string)
    ensures Tight(Text(v) + rest, false) == Tight(rest, false)
    decreases v, 1
  {
    hide Tight, Quote, NumText;
    match v
    case Str(t) => TightQuote(t, rest);
    case Arr(items) =>
      assert Text(v) + rest == "[" + (ItemsText(items) + ("]" + rest));
      TightBare("[", ItemsText(items) + ("]" + rest));
      TightItems(items, "]" + rest);
      TightBare("]", rest);
    case Obj(ms) =>
      assert Text(v) + rest == "{" + (MembersText(ms) + ("}" + rest));
      TightBare("{", MembersText(ms) + ("}" + rest));
      TightMembers(ms, "}" + rest);
      TightBare("}", rest);
    case _ =>
      ScalarBare(v);
      TightBare(Text(v), rest);
  }

  lemma {:induction false} TightItems(items: seq<Json>, rest: string)
    ensures Tight(ItemsText(items) + rest, false) == Tight(rest, false)
    decreases items, 0
  {
    hide Tight, Text;
    if |items| == 0 {
      assert ItemsText(items) + rest == rest;
    } else if |items| == 1 {
      TightText(items[0], rest);
    } else {
      var more := ItemsText(items[1..]) + rest;
      assert ItemsText(items) + rest == Text(items[0]) + ("," + more);
      TightText(items[0], "," + more);
      TightBare(",", more);
      TightItems(items[1..], rest);
    }
  }

  lemma {:induction false} TightMembers(ms: seq<Member>, rest: string)
    ensures Tight(MembersText(ms) + rest, false) == Tight(rest, false)
    decreases ms, 0
  {
    hide Tight, Text, Quote;
    if |ms| == 0 {
      assert MembersText(ms) + rest == rest;
    } else {
      var end := if |ms| == 1 then rest else "," + (MembersText(ms[1..]) + rest);
      assert MembersText(ms) + rest == Quote(ms[0].key) + (":" + (Text(ms[0].value) + end));
      TightQuote(ms[0].key, ":" + (Text(ms[0].value) + end));
      TightBare(":", Text(ms[0].value) + end);
      TightText(ms[0].value, end);
      if |ms| > 1 {
        TightBare(",", MembersText(ms[1..]) + rest);
        TightMembers(ms[1..], rest);
      }
    }
  }

  /** The canonical text has no white space outside its strings. */
  lemma StringifyTight(v: Json)
    ensures Tight(Stringify(v), false)
  {
    hide Text, Canon;
    TightText(Canon(v), "");
    assert Text(Canon(v)) + "" == Text(Canon(v));
  }
}
