/**
 * JSON values as the token code handles them, their text, and a reader of that text (RFC 8259).
 * Object members keep their insertion order, as they do in the source language.
 */
module Json {
  import opened Arith
  import opened Seqs

  datatype Json =
    | Null
    | Bool(b: bool)
    | Num(n: int)
    | Str(s: string)
    | Arr(items: seq<Json>)
    | Obj(members: seq<Member>)

  datatype Member = Member(key: string, value: Json)

  // ---- Objects -----------------------------------------------------------------------

  predicate HasKey(ms: seq<Member>, k: string)
  {
    exists i :: 0 <= i < |ms| && ms[i].key == k
  }

  /** The value of a property, if the value is an object that has it. */
  function Field(v: Json, k: string): Option<Json>
  {
    if v.Obj? then Find(v.members, k) else None
  }

  function Find(ms: seq<Member>, k: string): Option<Json>
  {
    if ms == [] then None
    else if ms[0].key == k then Some(ms[0].value)
    else Find(ms[1..], k)
  }

  /** Assigning a property: in place when it exists, at the end when it does not. */
  function Put(ms: seq<Member>, k: string, v: Json): (r: seq<Member>)
    ensures !HasKey(ms, k) ==> r == ms + [Member(k, v)]
  {
    if ms == [] then [Member(k, v)]
    else if ms[0].key == k then
      assert HasKey(ms, k);
      [Member(k, v)] + ms[1..]
    else
      assert !HasKey(ms, k) ==> !HasKey(ms[1..], k);
      [ms[0]] + Put(ms[1..], k, v)
  }

  ghost predicate DistinctKeys(ms: seq<Member>)
  {
    forall i, j :: 0 <= i < j < |ms| ==> ms[i].key != ms[j].key
  }

  /** A value of the source language: no object has two properties with one name. */
  ghost predicate WellFormed(v: Json)
  {
    match v
    case Arr(items) => forall i :: 0 <= i < |items| ==> WellFormed(items[i])
    case Obj(ms) => DistinctKeys(ms) && forall i :: 0 <= i < |ms| ==> WellFormed(ms[i].value)
    case _ => true
  }

  // ---- Writing -----------------------------------------------------------------------

  function HexDigit(n: int): char
    requires 0 <= n < 16
  {
    if n < 10 then (n + 48) as char else (n + 87) as char
  }

  /** Lower-case digits, as toString(16) and JSON.stringify write them. */
  lemma HexDigitTable(n: int)
    requires 0 <= n < 16
    ensures HexDigit(n) == "0123456789abcdef"[n]
  {
  }

  function Escape(c: char): string
  {
    if c == '"' then "\\\""
    else if c == '\\' then "\\\\"
    else if c as int == 8 then "\\b"
    else if c as int == 9 then "\\t"
    else if c as int == 10 then "\\n"
    else if c as int == 12 then "\\f"
    else if c as int == 13 then "\\r"
    else if c as int < 32 then "\\u00" + [HexDigit(c as int / 16), HexDigit(c as int % 16)]
    else [c]
  }

  function EscapeAll(s: string): string
  {
    if s == "" then "" else Escape(s[0]) + EscapeAll(s[1..])
  }

  function Quote(s: string): string { "\"" + EscapeAll(s) + "\"" }

  function NatText(n: nat): (s: string)
    ensures s != "" && forall i :: 0 <= i < |s| ==> IsDigit(s[i])
    ensures s[0] == '0' ==> n == 0 && |s| == 1
  {
    if n < 10 then [HexDigit(n)] else NatText(n / 10) + [HexDigit(n % 10)]
  }

  function NumText(n: int): string { if n < 0 then "-" + NatText(-n) else NatText(n) }

  /** JSON.stringify, with the members in the order they have. */
  function Text(v: Json): string
  {
    match v
    case Null => "null"
    case Bool(b) => if b then "true" else "false"
    case Num(n) => NumText(n)
    case Str(s) => Quote(s)
    case Arr(items) => "[" + ItemsText(items) + "]"
    case Obj(ms) => "{" + MembersText(ms) + "}"
  }

  function ItemsText(items: seq<Json>): string
  {
    if |items| == 0 then ""
    else if |items| == 1 then Text(items[0])
    else Text(items[0]) + "," + ItemsText(items[1..])
  }

  function MembersText(ms: seq<Member>): string
  {
    if |ms| == 0 then ""
    else if |ms| == 1 then Quote(ms[0].key) + ":" + Text(ms[0].value)
    else Quote(ms[0].key) + ":" + Text(ms[0].value) + "," + MembersText(ms[1..])
  }

  // ---- Reading -----------------------------------------------------------------------

  datatype Parsed<+T> = Fail | Done(value: T, rest: string)

  predicate IsDigit(c: char) { '0' <= c <= '9' }

  predicate IsSpace(c: char) { c == ' ' || c == '\n' || c == '\r' || c == '\t' }

  function SkipSpace(s: string): (r: string)
    ensures |r| <= |s|
  {
    if s != "" && IsSpace(s[0]) then SkipSpace(s[1..]) else s
  }

  function HexValue(c: char): (r: Option<int>)
    ensures r.Some? ==> 0 <= r.value < 16
  {
    if '0' <= c <= '9' then Some(c as int - 48)
    else if 'a' <= c <= 'f' then Some(c as int - 87)
    else if 'A' <= c <= 'F' then Some(c as int - 55)
    else None
  }

  /** The character that an escape stands for, given the character after the backslash. */
  function Unescape(c: char): Option<char>
  {
    if c == '"' || c == '\\' || c == '/' then Some(c)
    else if c == 'b' then Some(8 as char)
    else if c == 't' then Some(9 as char)
    else if c == 'n' then Some(10 as char)
    else if c == 'f' then Some(12 as char)
    else if c == 'r' then Some(13 as char)
    else None
  }

  /** Four hexadecimal digits that name a character which is not a surrogate. */
  function UnicodeEscape(s: string): Option<char>
    requires |s| >= 4
  {
    match (HexValue(s[0]), HexValue(s[1]), HexValue(s[2]), HexValue(s[3]))
    case (Some(a), Some(b), Some(c), Some(d)) =>
      var n := a * 4096 + b * 256 + c * 16 + d;
      if n < 0xD800 || n >= 0xE000 then Some(n as char) else None
    case (_, _, _, _) => None
  }

  /** Four digits name the character whose code they spell. */
  lemma EscapeNames(n: int)
    requires 0 <= n < 0xD800 || 0xE000 <= n < 0x1_0000
    ensures UnicodeEscape([HexDigit(n / 4096), HexDigit(n / 256 % 16), HexDigit(n / 16 % 16), HexDigit(n % 16)])
            == Some(n as char)
  {
    hide HexDigit, HexValue;
    DigitReads(n / 4096);
    DigitReads(n / 256 % 16);
    DigitReads(n / 16 % 16);
    DigitReads(n % 16);
    FourDigits(n);
  }

  lemma FourDigits(n: int)
    requires 0 <= n < 0x1_0000
    ensures n == n / 4096 * 4096 + n / 256 % 16 * 256 + n / 16 % 16 * 16 + n % 16
  {
    assert n / 256 == n / 4096 * 16 + n / 256 % 16;
    assert n / 16 == n / 256 * 16 + n / 16 % 16;
  }

  lemma DigitReads(d: int)
    requires 0 <= d < 16
    ensures HexValue(HexDigit(d)) == Some(d)
  {
  }

  /** The rest of a string after its opening quote. */
  function ParseChars(s: string): (r: Parsed<string>)
    ensures r.Done? ==> |r.rest| < |s|
  {
    if s == "" || s[0] as int < 32 then Fail
    else if s[0] == '"' then Done("", s[1..])
    else if s[0] != '\\' then Prepend(s[0], ParseChars(s[1..]))
    else if |s| < 2 then Fail
    else if s[1] == 'u' then
      if |s| < 6 then Fail
      else
        match UnicodeEscape(s[2..6])
        case None => Fail
        case Some(c) => Prepend(c, ParseChars(s[6..]))
    else
      match Unescape(s[1])
      case None => Fail
      case Some(c) => Prepend(c, ParseChars(s[2..]))
  }

  function Prepend(c: char, r: Parsed<string>): Parsed<string>
  {
    match r
    case Fail => Fail
    case Done(t, rest) => Done([c] + t, rest)
  }

  /** How many digits s starts with. */
  function DigitRun(s: string): (n: nat)
    ensures n <= |s|
  {
    if s != "" && IsDigit(s[0]) then 1 + DigitRun(s[1..]) else 0
  }

  function DigitValue(c: char): nat
    requires IsDigit(c)
  {
    c as int - 48
  }

  function NatValue(s: string): nat
    requires forall i :: 0 <= i < |s| ==> IsDigit(s[i])
  {
    if s == "" then 0 else NatValue(Front(s)) * 10 + DigitValue(s[|s| - 1])
  }

  lemma {:induction false} DigitRunDigits(s: string)
    ensures forall i :: 0 <= i < DigitRun(s) ==> IsDigit(s[i])
  {
    if s != "" && IsDigit(s[0]) {
      DigitRunDigits(s[1..]);
      forall i | 0 <= i < DigitRun(s)
        ensures IsDigit(s[i])
      {
        if i > 0 {
          assert s[i] == s[1..][i - 1];
        }
      }
    }
  }

  /** An integer without leading zeros; a fraction or an exponent is not read. */
  function ParseNat(s: string): (r: Parsed<nat>)
    ensures r.Done? ==> |r.rest| < |s|
  {
    var n := DigitRun(s);
    DigitRunDigits(s);
    if n == 0 || (n > 1 && s[0] == '0') then Fail
    else if n < |s| && (s[n] == '.' || s[n] == 'e' || s[n] == 'E') then Fail
    else Done(NatValue(s[..n]), s[n..])
  }

  function ParseNumber(s: string): (r: Parsed<Json>)
    ensures r.Done? ==> |r.rest| < |s|
  {
    if s != "" && s[0] == '-' then
      match ParseNat(s[1..])
      case Fail => Fail
      case Done(n, rest) => Done(Num(0 - n), rest)
    else
      match ParseNat(s)
      case Fail => Fail
      case Done(n, rest) => Done(Num(n), rest)
  }

  function ParseWord(s: string, word: string, v: Json): (r: Parsed<Json>)
    requires word != ""
    ensures r.Done? ==> |r.rest| < |s|
  {
    if |s| >= |word| && s[..|word|] == word then Done(v, s[|word|..]) else Fail
  }

  function ParseValue(s: string): (r: Parsed<Json>)
    ensures r.Done? ==> |r.rest| < |s|
    decreases |s|, 2
  {
    var t := SkipSpace(s);
    if t == "" then Fail
    else if t[0] == '[' then ParseArray(t)
    else if t[0] == '{' then ParseObject(t)
    else ParseScalar(t)
  }

  function ParseScalar(t: string): (r: Parsed<Json>)
    requires t != ""
    ensures r.Done? ==> |r.rest| < |t|
  {
    if t[0] == '"' then
      match ParseChars(t[1..])
      case Fail => Fail
      case Done(str, rest) => Done(Str(str), rest)
    else if t[0] == 'n' then ParseWord(t, "null", Null)
    else if t[0] == 't' then ParseWord(t, "true", Bool(true))
    else if t[0] == 'f' then ParseWord(t, "false", Bool(false))
    else ParseNumber(t)
  }

  function ParseArray(t: string): (r: Parsed<Json>)
    requires t != ""
    ensures r.Done? ==> |r.rest| < |t|
    decreases |t|, 1
  {
    var u := SkipSpace(t[1..]);
    if u != "" && u[0] == ']' then Done(Arr([]), u[1..])
    else
      match ParseItems(t[1..], [])
      case Fail => Fail
      case Done(items, rest) => Done(Arr(items), rest)
  }

  function ParseObject(t: string): (r: Parsed<Json>)
    requires t != ""
    ensures r.Done? ==> |r.rest| < |t|
    decreases |t|, 1
  {
    var u := SkipSpace(t[1..]);
    if u != "" && u[0] == '}' then Done(Obj([]), u[1..])
    else
      match ParseMembers(t[1..], [])
      case Fail => Fail
      case Done(ms, rest) => Done(Obj(ms), rest)
  }

  function ParseItems(s: string, acc: seq<Json>): (r: Parsed<seq<Json>>)
    ensures r.Done? ==> |r.rest| < |s|
    decreases |s|, 3
  {
    match ParseValue(s)
    case Fail => Fail
    case Done(v, rest) =>
      var u := SkipSpace(rest);
      if u != "" && u[0] == ',' then ParseItems(u[1..], acc + [v])
      else if u != "" && u[0] == ']' then Done(acc + [v], u[1..])
      else Fail
  }

  /** Reads members up to the closing brace; a repeated name overwrites, as JSON.parse does. */
  function ParseMembers(s: string, acc: seq<Member>): (r: Parsed<seq<Member>>)
    ensures r.Done? ==> |r.rest| < |s|
    decreases |s|, 3
  {
    var t := SkipSpace(s);
    if t == "" || t[0] != '"' then Fail
    else
      match ParseChars(t[1..])
      case Fail => Fail
      case Done(k, afterKey) =>
        var c := SkipSpace(afterKey);
        if c == "" || c[0] != ':' then Fail
        else
          match ParseValue(c[1..])
          case Fail => Fail
          case Done(v, rest) =>
            var u := SkipSpace(rest);
            var acc' := Put(acc, k, v);
            if u != "" && u[0] == ',' then ParseMembers(u[1..], acc')
            else if u != "" && u[0] == '}' then Done(acc', u[1..])
            else Fail
  }

  /** JSON.parse: one value and nothing but white space around it. */
  function Parse(s: string): Option<Json>
  {
    match ParseValue(s)
    case Fail => None
    case Done(v, rest) => if SkipSpace(rest) == "" then Some(v) else None
  }

  // ---- Reading undoes writing --------------------------------------------------------

  lemma EscapeRead(c: char, rest: string)
    ensures ParseChars(Escape(c) + rest) == Prepend(c, ParseChars(rest))
  {
    hide ParseChars, Escape, Prepend;
    PlainRead(c, rest);
    ShortRead(c, rest);
    UnicodeRead(c, rest);
    EscapeLength(c);
  }

  lemma EscapeLength(c: char)
    ensures |Escape(c)| == 1 || |Escape(c)| == 2 || |Escape(c)| == 6
  {
  }

  lemma PlainRead(c: char, rest: string)
    ensures |Escape(c)| == 1 ==> ParseChars(Escape(c) + rest) == Prepend(c, ParseChars(rest))
  {
    hide HexValue, HexDigit, UnicodeEscape, Unescape;
    assert |Escape(c)| == 1 ==> (Escape(c) + rest)[1..] == rest;
  }

  lemma ShortRead(c: char, rest: string)
    ensures |Escape(c)| == 2 ==> ParseChars(Escape(c) + rest) == Prepend(c, ParseChars(rest))
  {
    hide HexValue, HexDigit, UnicodeEscape;
    var e := Escape(c);
    var s := e + rest;
    if |e| == 2 {
      assert s[0] == '\\' && s[1] == e[1] && s[2..] == rest;
    }
  }

  lemma UnicodeRead(c: char, rest: string)
    ensures |Escape(c)| == 6 ==> ParseChars(Escape(c) + rest) == Prepend(c, ParseChars(rest))
  {
    hide Unescape;
    var e := Escape(c);
    var s := e + rest;
    if |e| == 6 {
      var h, l := HexDigit(c as int / 16), HexDigit(c as int % 16);
      assert e == "\\u00" + [h, l];
      assert s[..6] == e && s[6..] == rest;
      assert s[0] == '\\' && s[1] == 'u';
      assert s[2..6] == ['0', '0', h, l];
      assert HexValue('0') == Some(0);
    }
  }

  lemma {:induction false} QuoteRead(t: string, rest: string)
    ensures ParseChars(EscapeAll(t) + "\"" + rest) == Done(t, rest)
  {
    if t == "" {
      assert EscapeAll(t) + "\"" + rest == "\"" + rest;
      assert ("\"" + rest)[1..] == rest;
    } else {
      var tail := EscapeAll(t[1..]) + "\"" + rest;
      assert EscapeAll(t) + "\"" + rest == Escape(t[0]) + tail;
      EscapeRead(t[0], tail);
      QuoteRead(t[1..], rest);
      assert [t[0]] + t[1..] == t;
    }
  }

  lemma {:induction false} NatValueOfText(n: nat)
    ensures NatValue(NatText(n)) == n
  {
    var s := NatText(n);
    if n < 10 {
      assert Front(s) == "";
    } else {
      NatValueOfText(n / 10);
      assert Front(s) == NatText(n / 10);
      assert Last(s) == HexDigit(n % 10);
    }
  }

  /** What may follow a value inside a larger text. */
  predicate Stops(rest: string)
  {
    rest == "" || rest[0] == ',' || rest[0] == ']' || rest[0] == '}'
  }

  lemma {:induction false} DigitRunConcat(s: string, rest: string)
    requires Stops(rest) && forall i :: 0 <= i < |s| ==> IsDigit(s[i])
    ensures DigitRun(s + rest) == |s|
  {
    if s == "" {
      assert s + rest == rest;
    } else {
      assert (s + rest)[1..] == s[1..] + rest;
      DigitRunConcat(s[1..], rest);
    }
  }

  lemma NatRead(n: nat, rest: string)
    requires Stops(rest)
    ensures ParseNat(NatText(n) + rest) == Done(n, rest)
  {
    var t := NatText(n);
    var s := t + rest;
    DigitRunConcat(t, rest);
    NatValueOfText(n);
    assert s[..|t|] == t && s[|t|..] == rest;
    assert s[0] == t[0];
  }

  lemma NumRead(n: int, rest: string)
    requires Stops(rest)
    ensures ParseNumber(NumText(n) + rest) == Done(Num(n), rest)
    ensures NumText(n)[0] == '-' || IsDigit(NumText(n)[0])
  {
    hide ParseNat, NatText;
    var m := if n < 0 then -n else n;
    var t := NatText(m) + rest;
    NatRead(m, rest);
    assert t[0] == NatText(m)[0] && IsDigit(t[0]);
    if n < 0 {
      assert NumText(n) + rest == "-" + t;
      assert ("-" + t)[1..] == t;
    }
  }

  lemma WordRead(word: string, v: Json, rest: string)
    requires word != ""
    ensures ParseWord(word + rest, word, v) == Done(v, rest)
  {
    assert (word + rest)[..|word|] == word && (word + rest)[|word|..] == rest;
  }

  /** No value starts with white space or with a closing bracket. */
  lemma TextStart(v: Json)
    ensures Text(v) != "" && !IsSpace(Text(v)[0]) && Text(v)[0] != ']' && Text(v)[0] != '}'
    ensures (Text(v)[0] == '[' <==> v.Arr?) && (Text(v)[0] == '{' <==> v.Obj?)
  {
    if v.Num? {
      NumRead(v.n, "");
    }
  }

  lemma ScalarRead(v: Json, rest: string)
    requires !v.Arr? && !v.Obj? && Stops(rest)
    ensures ParseScalar(Text(v) + rest) == Done(v, rest)
  {
    hide ParseChars, EscapeAll, ParseNat, NatText;
    var s := Text(v) + rest;
    match v
    case Null => WordRead("null", v, rest);
    case Bool(b) => WordRead(if b then "true" else "false", v, rest);
    case Num(n) =>
      NumRead(n, rest);
      assert s[0] == NumText(n)[0];
    case Str(t) =>
      QuoteRead(t, rest);
      assert s[1..] == EscapeAll(t) + "\"" + rest;
  }

  lemma SkipNothing(s: string)
    requires s == "" || !IsSpace(s[0])
    ensures SkipSpace(s) == s
  {
  }

  lemma ArrayRead(items: seq<Json>, rest: string)
    requires items != [] ==> ParseItems(ItemsText(items) + "]" + rest, []) == Done(items, rest)
    ensures ParseArray(Text(Arr(items)) + rest) == Done(Arr(items), rest)
  {
    hide ParseItems, ItemsText;
    var t, u := Text(Arr(items)) + rest, ItemsText(items) + "]" + rest;
    assert t[1..] == u;
    ItemsStart(items);
    if items == [] {
      assert u == "]" + rest && u[0] == ']' && u[1..] == rest;
      SkipNothing(u);
    } else {
      assert u[0] == ItemsText(items)[0];
      SkipNothing(u);
    }
  }

  lemma ObjectRead(ms: seq<Member>, rest: string)
    requires ms != [] ==> ParseMembers(MembersText(ms) + "}" + rest, []) == Done(ms, rest)
    ensures ParseObject(Text(Obj(ms)) + rest) == Done(Obj(ms), rest)
  {
    hide ParseMembers, MembersText;
    var t, u := Text(Obj(ms)) + rest, MembersText(ms) + "}" + rest;
    assert t[1..] == u;
    MembersStart(ms);
    if ms == [] {
      assert u == "}" + rest && u[0] == '}' && u[1..] == rest;
      SkipNothing(u);
    } else {
      assert u[0] == MembersText(ms)[0] == '"';
      SkipNothing(u);
    }
  }

  lemma ItemsStart(items: seq<Json>)
    ensures items == [] ==> ItemsText(items) == ""
    ensures items != [] ==> ItemsText(items) != "" && !IsSpace(ItemsText(items)[0]) && ItemsText(items)[0] != ']'
    ensures !IsSpace(']')
  {
    hide Text;
    if items != [] {
      TextStart(items[0]);
      assert ItemsText(items)[0] == Text(items[0])[0];
    }
  }

  lemma MembersStart(ms: seq<Member>)
    ensures ms == [] ==> MembersText(ms) == ""
    ensures ms != [] ==> MembersText(ms) != "" && MembersText(ms)[0] == '"'
    ensures !IsSpace('}') && !IsSpace('"')
  {
    hide Text, EscapeAll;
  }

  lemma {:induction false} ValueRead(v: Json, rest: string)
    requires WellFormed(v) && Stops(rest)
    ensures ParseValue(Text(v) + rest) == Done(v, rest)
    decreases v, 1
  {
    hide ParseScalar, ParseArray, ParseObject, ParseItems, ParseMembers, Text, ItemsText, MembersText;
    var s := Text(v) + rest;
    TextStart(v);
    assert s[0] == Text(v)[0];
    SkipNothing(s);
    match v
    case Arr(items) =>
      if items != [] {
        ItemsRead(items, [], rest);
        assert [] + items == items;
      }
      ArrayRead(items, rest);
    case Obj(ms) =>
      if ms != [] {
        assert [] + ms == ms;
        MembersRead(ms, [], rest);
      }
      ObjectRead(ms, rest);
    case _ =>
      ScalarRead(v, rest);
  }

  /** One turn of the item loop. */
  lemma ItemStep(v: Json, acc: seq<Json>, more: string, rest: string)
    ensures ParseValue(Text(v) + ("]" + rest)) == Done(v, "]" + rest)
            ==> ParseItems(Text(v) + ("]" + rest), acc) == Done(acc + [v], rest)
    ensures ParseValue(Text(v) + ("," + more)) == Done(v, "," + more)
            ==> ParseItems(Text(v) + ("," + more), acc) == ParseItems(more, acc + [v])
  {
    hide ParseValue, Text;
    assert ("]" + rest)[1..] == rest;
    assert ("," + more)[1..] == more;
  }

  lemma {:induction false} ItemsRead(items: seq<Json>, acc: seq<Json>, rest: string)
    requires items != [] && forall i :: 0 <= i < |items| ==> WellFormed(items[i])
    ensures ParseItems(ItemsText(items) + "]" + rest, acc) == Done(acc + items, rest)
    decreases items, 0
  {
    hide ParseItems, ParseValue, Text;
    var s := ItemsText(items) + "]" + rest;
    var v := items[0];
    if |items| == 1 {
      assert s == Text(v) + ("]" + rest);
      ValueRead(v, "]" + rest);
      ItemStep(v, acc, "", rest);
      assert acc + [v] == acc + items;
    } else {
      var more := ItemsText(items[1..]) + "]" + rest;
      assert s == Text(v) + ("," + more);
      ValueRead(v, "," + more);
      ItemStep(v, acc, more, rest);
      ItemsRead(items[1..], acc + [v], rest);
      assert acc + [v] + items[1..] == acc + items;
    }
  }

  /** One turn of the member loop: a new name, its value, and then a comma or the closing brace. */
  lemma MemberStep(m: Member, acc: seq<Member>, end: string)
    requires !HasKey(acc, m.key) && ParseValue(Text(m.value) + end) == Done(m.value, end)
    requires end != "" && (end[0] == ',' || end[0] == '}')
    ensures ParseMembers(Quote(m.key) + ":" + Text(m.value) + end, acc)
            == if end[0] == ',' then ParseMembers(end[1..], acc + [m]) else Done(acc + [m], end[1..])
  {
    hide ParseValue, Text, ParseChars, EscapeAll;
    var afterKey := ":" + (Text(m.value) + end);
    var s := Quote(m.key) + ":" + Text(m.value) + end;
    assert s == "\"" + (EscapeAll(m.key) + "\"" + afterKey);
    assert s[1..] == EscapeAll(m.key) + "\"" + afterKey;
    QuoteRead(m.key, afterKey);
    assert afterKey[1..] == Text(m.value) + end;
    SkipNothing(s);
    SkipNothing(afterKey);
    SkipNothing(end);
  }

  lemma {:induction false} MembersRead(ms: seq<Member>, acc: seq<Member>, rest: string)
    requires ms != [] && DistinctKeys(acc + ms) && forall i :: 0 <= i < |ms| ==> WellFormed(ms[i].value)
    ensures ParseMembers(MembersText(ms) + "}" + rest, acc) == Done(acc + ms, rest)
    decreases ms, 0
  {
    hide ParseMembers, ParseValue, Text, Quote, MembersText, HasKey;
    var m := ms[0];
    NotYetRead(acc, ms);
    var more := if |ms| == 1 then "" else MembersText(ms[1..]) + "}" + rest;
    var end := if |ms| == 1 then "}" + rest else "," + more;
    MembersTextStep(ms, rest);
    ValueRead(m.value, end);
    MemberStep(m, acc, end);
    if |ms| == 1 {
      assert end[1..] == rest;
      assert acc + [m] == acc + ms;
    } else {
      assert end[1..] == more;
      assert acc + [m] + ms[1..] == acc + ms;
      MembersRead(ms[1..], acc + [m], rest);
    }
  }

  lemma NotYetRead(acc: seq<Member>, ms: seq<Member>)
    requires ms != [] && DistinctKeys(acc + ms)
    ensures !HasKey(acc, ms[0].key)
  {
    forall i | 0 <= i < |acc|
      ensures acc[i].key != ms[0].key
    {
      assert (acc + ms)[i] == acc[i] && (acc + ms)[|acc|] == ms[0];
    }
  }

  lemma MembersTextStep(ms: seq<Member>, rest: string)
    requires ms != []
    ensures var end := if |ms| == 1 then "}" + rest else "," + (MembersText(ms[1..]) + "}" + rest);
            MembersText(ms) + "}" + rest == Quote(ms[0].key) + ":" + Text(ms[0].value) + end
  {
    hide Text, Quote;
    var head := Quote(ms[0].key) + ":" + Text(ms[0].value);
    if |ms| == 1 {
      Regroup(head, "}", rest);
    } else {
      var more := MembersText(ms[1..]);
      hide MembersText;
      Regroup(head, "," + more, "}" + rest);
      Regroup(",", more, "}" + rest);
      Regroup(more, "}", rest);
      assert MembersText(ms) == head + "," + more by { MembersTextUnfold(ms); }
      Regroup(head, ",", more);
      Regroup(head + ("," + more), "}", rest);
    }
  }

  lemma MembersTextUnfold(ms: seq<Member>)
    requires |ms| > 1
    ensures MembersText(ms) == Quote(ms[0].key) + ":" + Text(ms[0].value) + "," + MembersText(ms[1..])
  {
  }

  /** The four white space characters of RFC 8259 are skipped in front of a value. */
  lemma LeadingSpace(c: char, t: string)
    requires c as int == 9 || c as int == 10 || c as int == 13 || c as int == 32
    ensures Parse([c] + t) == Parse(t)
  {
    hide ParseArray, ParseObject, ParseScalar;
    assert ([c] + t)[1..] == t;
  }

  /** JSON.parse undoes JSON.stringify on every value. */
  lemma ParseUndoesText(v: Json)
    requires WellFormed(v)
    ensures Parse(Text(v)) == Some(v)
  {
    ValueRead(v, "");
    assert Text(v) + "" == Text(v);
  }
}
