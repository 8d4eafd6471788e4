/** JSON texts (RFC 8259), without insignificant whitespace: how they are printed and how they
    are read. */
module Json {
  import opened Basics
  import Names = ObjectNames

  /** A number is kept as its text. */
  datatype Json =
    | Null
    | Bool(b: bool)
    | Number(text: string)
    | String(s: string)
    | Array(items: seq<Json>)
    | Object(members: seq<Member>)

  datatype Member = Member(key: string, value: Json)

  // ---------------------------------------------------------------- printing

  const BACKSPACE := '\U{0008}'
  const FORM_FEED := '\U{000C}'

  /** Characters as the serializer writes them inside strings. */
  function EscapeChar(c: char): string {
    if c == '"' then "\\\""
    else if c == '\\' then "\\\\"
    else if c == BACKSPACE then "\\b"
    else if c == FORM_FEED then "\\f"
    else if c == '\n' then "\\n"
    else if c == '\r' then "\\r"
    else if c == '\t' then "\\t"
    else if c < ' ' then "\\u00" + [HexDigit(c as int / 16), HexDigit(c as int % 16)]
    else [c]
  }

  function Escape(s: string): string {
    if s == "" then "" else EscapeChar(s[0]) + Escape(s[1..])
  }

  function Quote(s: string): string {
    "\"" + Escape(s) + "\""
  }

  function IntegerText(i: int): string {
    if i < 0 then "-" + Names.Decimal(-i) else Names.Decimal(i)
  }

  function Comma(first: bool): string {
    if first then "" else ","
  }

  function Print(j: Json): string
    decreases j
  {
    match j
    case Null => "null"
    case Bool(b) => if b then "true" else "false"
    case Number(t) => t
    case String(s) => Quote(s)
    case Array(items) => "[" + PrintItems(items) + "]"
    case Object(members) => "{" + PrintMembers(members) + "}"
  }

  function PrintItems(items: seq<Json>): string
    decreases items
  {
    if items == [] then ""
    else
      var front, last := items[..|items| - 1], items[|items| - 1];
      PrintItems(front) + Comma(front == []) + Print(last)
  }

  function PrintMembers(members: seq<Member>): string
    decreases members
  {
    if members == [] then ""
    else
      var front, last := members[..|members| - 1], members[|members| - 1];
      PrintMembers(front) + Comma(front == []) + PrintMember(last)
  }

  function PrintMember(m: Member): string
    decreases m
  {
    Quote(m.key) + ":" + Print(m.value)
  }

  // ---------------------------------------------------------------- reading strings

  /** What was read and the text after it. */
  datatype Reading<+T> = Bad | Good(value: T, rest: string)

  function Cons(c: char, r: Reading<string>): Reading<string> {
    match r
    case Bad => Bad
    case Good(s, rest) => Good([c] + s, rest)
  }

  /** The character behind a backslash, section 7 of RFC 8259. */
  function Unescape(c: char): Option<char> {
    if c == '"' || c == '\\' || c == '/' then Some(c)
    else if c == 'b' then Some(BACKSPACE)
    else if c == 'f' then Some(FORM_FEED)
    else if c == 'n' then Some('\n')
    else if c == 'r' then Some('\r')
    else if c == 't' then Some('\t')
    else None
  }

  function HexValue(c: char): Option<nat> {
    if '0' <= c <= '9' then Some((c - '0') as nat)
    else if 'a' <= c <= 'f' then Some((c - 'a') as nat + 10)
    else if 'A' <= c <= 'F' then Some((c - 'A') as nat + 10)
    else None
  }

  /** Four hexadecimal digits; halves of surrogate pairs are not read. */
  function CodePoint(t: string): Option<char>
    requires |t| == 4
  {
    var a, b, c, d := HexValue(t[0]), HexValue(t[1]), HexValue(t[2]), HexValue(t[3]);
    if a.None? || b.None? || c.None? || d.None? then None
    else
      var n: int := 4096 * a.value + 256 * b.value + 16 * c.value + d.value;
      if 0 <= n < 0xD800 then Some(n as char) else None
  }

  /** The characters of a string behind its opening quote. */
  function ReadChars(t: string): (r: Reading<string>)
    ensures r.Good? ==> |r.rest| < |t|
  {
    if t == "" || t[0] < ' ' then Bad
    else if t[0] == '"' then Good("", t[1..])
    else if t[0] != '\\' then Cons(t[0], ReadChars(t[1..]))
    else if |t| >= 2 && Unescape(t[1]).Some? then Cons(Unescape(t[1]).value, ReadChars(t[2..]))
    else if |t| >= 6 && t[1] == 'u' && CodePoint(t[2..6]).Some? then Cons(CodePoint(t[2..6]).value, ReadChars(t[6..]))
    else Bad
  }

  lemma HexBack(n: nat)
    requires n < 16
    ensures HexValue(HexDigit(n)) == Some(n)
  {
  }

  lemma ReadPlain(c: char, rest: string)
    requires c >= ' ' && c != '"' && c != '\\'
    ensures ReadChars([c] + rest) == Cons(c, ReadChars(rest))
  {
    assert ([c] + rest)[1..] == rest;
  }

  lemma ReadShort(e: char, rest: string)
    requires Unescape(e).Some?
    ensures ReadChars(['\\', e] + rest) == Cons(Unescape(e).value, ReadChars(rest))
  {
    hide Unescape;
    assert (['\\', e] + rest)[2..] == rest;
  }

  lemma ReadUnicode(h: string, rest: string)
    requires |h| == 4 && CodePoint(h).Some?
    ensures ReadChars("\\u" + h + rest) == Cons(CodePoint(h).value, ReadChars(rest))
  {
    hide CodePoint;
    var t := "\\u" + h + rest;
    assert t[2..6] == h && t[6..] == rest;
    assert Unescape('u') == None;
  }

  lemma ControlCode(c: char)
    requires c < ' '
    ensures var h := ['0', '0', HexDigit(c as int / 16), HexDigit(c as int % 16)]; CodePoint(h) == Some(c)
  {
    HexBack(c as int / 16);
    HexBack(c as int % 16);
    hide HexDigit;
    assert HexValue('0') == Some(0);
  }

  lemma ReadEscaped(c: char, rest: string)
    ensures ReadChars(EscapeChar(c) + rest) == Cons(c, ReadChars(rest))
  {
    hide ReadChars, CodePoint, HexDigit;
    var e := EscapeChar(c);
    if e == [c] {
      ReadPlain(c, rest);
    } else if |e| == 2 {
      assert e == ['\\', e[1]] && Unescape(e[1]) == Some(c);
      ReadShort(e[1], rest);
    } else {
      var h := ['0', '0', HexDigit(c as int / 16), HexDigit(c as int % 16)];
      ControlCode(c);
      ReadUnicode(h, rest);
      assert e == "\\u" + h;
    }
  }

  lemma ReadEnd(rest: string)
    ensures ReadChars("\"" + rest) == Good("", rest)
  {
    assert ("\"" + rest)[1..] == rest;
  }

  lemma {:induction false} ReadQuoted(s: string, rest: string)
    ensures ReadChars(Escape(s) + "\"" + rest) == Good(s, rest)
  {
    hide EscapeChar, ReadChars;
    if s == "" {
      ReadEnd(rest);
      assert Escape(s) + "\"" + rest == "\"" + rest;
    } else {
      var u := Escape(s[1..]) + "\"" + rest;
      ReadQuoted(s[1..], rest);
      ReadEscaped(s[0], u);
      assert EscapeChar(s[0]) + Escape(s[1..]) + "\"" + rest == EscapeChar(s[0]) + u;
      assert s == [s[0]] + s[1..];
    }
  }

  // ---------------------------------------------------------------- reading numbers

  predicate IsDigit(c: char) {
    '0' <= c <= '9'
  }

  predicate StartsWithDigit(t: string) {
    t != "" && IsDigit(t[0])
  }

  function SkipDigits(t: string): (r: string)
    ensures |r| <= |t| && (StartsWithDigit(t) ==> |r| < |t|)
  {
    if StartsWithDigit(t) then SkipDigits(t[1..]) else t
  }

  function AfterInt(t: string): Option<string> {
    if !StartsWithDigit(t) then None
    else if t[0] == '0' then Some(t[1..])
    else Some(SkipDigits(t))
  }

  function AfterFrac(t: string): Option<string> {
    if t == "" || t[0] != '.' then Some(t)
    else if StartsWithDigit(t[1..]) then Some(SkipDigits(t[1..]))
    else None
  }

  function SkipSign(t: string): string {
    if t != "" && (t[0] == '+' || t[0] == '-') then t[1..] else t
  }

  function AfterExp(t: string): Option<string> {
    if t == "" || !(t[0] == 'e' || t[0] == 'E') then Some(t)
    else if StartsWithDigit(SkipSign(t[1..])) then Some(SkipDigits(SkipSign(t[1..])))
    else None
  }

  function SkipMinus(t: string): string {
    if t != "" && t[0] == '-' then t[1..] else t
  }

  /** The text behind a number, section 6 of RFC 8259. */
  function AfterNumber(t: string): (r: Option<string>)
    ensures r.Some? ==> |r.value| < |t|
    ensures r.Some? ==> t[0] == '-' || IsDigit(t[0])
  {
    match AfterInt(SkipMinus(t))
    case None => None
    case Some(u) =>
      match AfterFrac(u)
      case None => None
      case Some(v) => AfterExp(v)
  }

  predicate IsNumber(t: string) {
    AfterNumber(t) == Some("")
  }

  /** What follows a number does not go on with it. */
  predicate EndsNumber(rest: string) {
    rest == "" || !(IsDigit(rest[0]) || rest[0] in ".eE+-")
  }

  lemma {:induction false} SkipDigitsOf(t: string, rest: string)
    requires EndsNumber(rest)
    ensures SkipDigits(t + rest) == SkipDigits(t) + rest
  {
    if t == "" {
      assert t + rest == rest;
    } else {
      SkipDigitsOf(t[1..], rest);
      assert (t + rest)[1..] == t[1..] + rest;
    }
  }

  lemma AfterFracOf(t: string, rest: string)
    requires EndsNumber(rest) && AfterFrac(t).Some?
    ensures AfterFrac(t + rest) == Some(AfterFrac(t).value + rest)
  {
    if t != "" && t[0] == '.' {
      assert (t + rest)[1..] == t[1..] + rest;
      SkipDigitsOf(t[1..], rest);
    } else if t == "" {
      assert t + rest == rest;
    }
  }

  lemma AfterExpOf(t: string, rest: string)
    requires EndsNumber(rest) && AfterExp(t).Some?
    ensures AfterExp(t + rest) == Some(AfterExp(t).value + rest)
  {
    if t == "" {
      assert t + rest == rest;
    } else if t[0] == 'e' || t[0] == 'E' {
      assert (t + rest)[0] == t[0] && (t + rest)[1..] == t[1..] + rest;
      SkipSignOf(t[1..], rest);
      hide SkipSign, SkipDigits, StartsWithDigit, EndsNumber;
      SkipDigitsOf(SkipSign(t[1..]), rest);
    }
  }

  lemma SkipSignOf(t: string, rest: string)
    requires StartsWithDigit(SkipSign(t))
    ensures SkipSign(t + rest) == SkipSign(t) + rest && StartsWithDigit(SkipSign(t) + rest)
  {
    assert t != "" && (t + rest)[0] == t[0] && (t + rest)[1..] == t[1..] + rest;
  }

  lemma AfterIntOf(t: string, rest: string)
    requires EndsNumber(rest) && AfterInt(t).Some?
    ensures AfterInt(t + rest) == Some(AfterInt(t).value + rest)
  {
    SkipDigitsOf(t, rest);
    assert (t + rest)[1..] == t[1..] + rest;
  }

  lemma AfterNumberOf(n: string, rest: string)
    requires IsNumber(n) && EndsNumber(rest)
    ensures AfterNumber(n + rest) == Some(rest)
  {
    hide AfterInt, AfterFrac, AfterExp;
    var t := SkipMinus(n);
    assert n != "" && SkipMinus(n + rest) == t + rest;
    AfterIntOf(t, rest);
    AfterFracOf(AfterInt(t).value, rest);
    AfterExpOf(AfterFrac(AfterInt(t).value).value, rest);
    assert "" + rest == rest;
  }

  // ---------------------------------------------------------------- reading values

  function Read(t: string): (r: Reading<Json>)
    ensures r.Good? ==> |r.rest| < |t|
    decreases |t|, 0
  {
    if t == "" then Bad
    else if t[0] == 'n' then Word("null", Null, t)
    else if t[0] == 't' then Word("true", Bool(true), t)
    else if t[0] == 'f' then Word("false", Bool(false), t)
    else if t[0] == '"' then
      match ReadChars(t[1..])
      case Bad => Bad
      case Good(s, rest) => Good(String(s), rest)
    else if t[0] == '[' then
      if "]" <= t[1..] then Good(Array([]), t[2..])
      else
        match ReadItems(t[1..])
        case Bad => Bad
        case Good(items, rest) => Good(Array(items), rest)
    else if t[0] == '{' then
      if "}" <= t[1..] then Good(Object([]), t[2..])
      else
        match ReadMembers(t[1..])
        case Bad => Bad
        case Good(members, rest) => Good(Object(members), rest)
    else
      match AfterNumber(t)
      case None => Bad
      case Some(rest) => Good(Number(t[..|t| - |rest|]), rest)
  }

  function Word(word: string, j: Json, t: string): (r: Reading<Json>)
    requires word != ""
    ensures r.Good? ==> |r.rest| < |t|
  {
    if word <= t then Good(j, t[|word|..]) else Bad
  }

  /** One or more values up to the closing bracket. */
  function ReadItems(t: string): (r: Reading<seq<Json>>)
    ensures r.Good? ==> |r.rest| < |t|
    decreases |t|, 1
  {
    match Read(t)
    case Bad => Bad
    case Good(j, rest) =>
      if "]" <= rest then Good([j], rest[1..])
      else if "," <= rest then
        match ReadItems(rest[1..])
        case Bad => Bad
        case Good(items, rest') => Good([j] + items, rest')
      else Bad
  }

  /** One or more members up to the closing brace. */
  function ReadMembers(t: string): (r: Reading<seq<Member>>)
    ensures r.Good? ==> |r.rest| < |t|
    decreases |t|, 1
  {
    if !("\"" <= t) then Bad
    else
      match ReadChars(t[1..])
      case Bad => Bad
      case Good(key, u) =>
        if !(":" <= u) then Bad
        else
          match Read(u[1..])
          case Bad => Bad
          case Good(j, rest) =>
            if "}" <= rest then Good([Member(key, j)], rest[1..])
            else if "," <= rest then
              match ReadMembers(rest[1..])
              case Bad => Bad
              case Good(members, rest') => Good([Member(key, j)] + members, rest')
            else Bad
  }

  // ---------------------------------------------------------------- reading undoes printing

  /** All numbers in the value are numbers. */
  ghost predicate Sound(j: Json)
    decreases j
  {
    match j
    case Number(t) => IsNumber(t)
    case Array(items) => forall i :: 0 <= i < |items| ==> Sound(items[i])
    case Object(members) => forall i :: 0 <= i < |members| ==> Sound(members[i].value)
    case _ => true
  }

  lemma NoItems()
    ensures PrintItems([]) == "" && PrintMembers([]) == ""
  {
  }

  lemma Regroup(a: string, p: string, l: string)
    ensures a + ("," + p) + "," + l == a + ("," + (p + "," + l))
    ensures a + "" + "," + l == a + ("," + ("" + "" + l))
  {
  }

  lemma {:induction false} ItemsFromFront(j: Json, js: seq<Json>)
    ensures PrintItems([j] + js) == Print(j) + if js == [] then "" else "," + PrintItems(js)
  {
    hide Print;
    if js == [] {
      assert [j] + js == [j] && [j][..0] == [];
      assert PrintItems([j]) == PrintItems([]) + Comma(true) + Print(j);
    } else {
      var front, last := js[..|js| - 1], js[|js| - 1];
      ItemsFromFront(j, front);
      assert ([j] + js)[..|js|] == [j] + front && ([j] + js)[|js|] == last;
      assert PrintItems([j] + js) == PrintItems([j] + front) + "," + Print(last);
      assert PrintItems(js) == PrintItems(front) + Comma(front == []) + Print(last);
      NoItems();
      hide PrintItems;
      Regroup(Print(j), PrintItems(front), Print(last));
    }
  }

  lemma {:induction false} MembersFromFront(m: Member, ms: seq<Member>)
    ensures PrintMembers([m] + ms) == PrintMember(m) + if ms == [] then "" else "," + PrintMembers(ms)
  {
    hide PrintMember;
    if ms == [] {
      assert [m] + ms == [m] && [m][..0] == [];
      assert PrintMembers([m]) == PrintMembers([]) + Comma(true) + PrintMember(m);
    } else {
      var front, last := ms[..|ms| - 1], ms[|ms| - 1];
      MembersFromFront(m, front);
      assert ([m] + ms)[..|ms|] == [m] + front && ([m] + ms)[|ms|] == last;
      assert PrintMembers([m] + ms) == PrintMembers([m] + front) + "," + PrintMember(last);
      assert PrintMembers(ms) == PrintMembers(front) + Comma(front == []) + PrintMember(last);
      NoItems();
      hide PrintMembers;
      Regroup(PrintMember(m), PrintMembers(front), PrintMember(last));
    }
  }

  /** No value starts as an array ends. */
  lemma PrintStarts(j: Json)
    requires Sound(j)
    ensures Print(j) != "" && Print(j)[0] != ']'
  {
  }

  lemma After(a: string, b: string)
    ensures a <= a + b && (a + b)[|a|..] == b
  {
  }

  lemma ReadWord(word: string, j: Json, rest: string)
    requires || (word == "null" && j == Null)
             || (word == "true" && j == Bool(true))
             || (word == "false" && j == Bool(false))
    ensures Read(word + rest) == Good(j, rest)
  {
    After(word, rest);
  }

  lemma ReadString(s: string, rest: string)
    ensures Read(Quote(s) + rest) == Good(String(s), rest)
  {
    hide Escape, ReadChars;
    ReadQuoted(s, rest);
    var t := Quote(s) + rest;
    assert t[1..] == Escape(s) + "\"" + rest;
  }

  lemma ReadNumber(n: string, rest: string)
    requires IsNumber(n) && EndsNumber(rest)
    ensures Read(n + rest) == Good(Number(n), rest)
  {
    AfterNumberOf(n, rest);
    hide AfterNumber;
    assert (n + rest)[0] == n[0];
    assert (n + rest)[..|n|] == n;
  }

  lemma ReadArray(u: string)
    requires u != "" && u[0] != ']'
    ensures Read("[" + u) == match ReadItems(u) case Bad => Bad case Good(items, rest) => Good(Array(items), rest)
  {
    hide ReadItems, ReadMembers, AfterNumber, ReadChars;
    assert ("[" + u)[1..] == u;
  }

  lemma ReadObject(u: string)
    requires u != "" && u[0] != '}'
    ensures Read("{" + u) == match ReadMembers(u)
                             case Bad => Bad
                             case Good(members, rest) => Good(Object(members), rest)
  {
    hide ReadItems, ReadMembers, AfterNumber, ReadChars;
    assert ("{" + u)[1..] == u;
  }

  lemma ReadEmpty(rest: string)
    ensures Read("[]" + rest) == Good(Array([]), rest) && Read("{}" + rest) == Good(Object([]), rest)
  {
    hide ReadItems, ReadMembers, AfterNumber, ReadChars;
    assert ("[]" + rest)[1..] == "]" + rest && ("[]" + rest)[2..] == rest;
    assert ("{}" + rest)[1..] == "}" + rest && ("{}" + rest)[2..] == rest;
  }

  /** Reading the text of a value gives the value back, whatever follows (other than what would
      go on with a number). */
  lemma {:induction false} ReadPrint(j: Json, rest: string)
    requires Sound(j) && EndsNumber(rest)
    ensures Read(Print(j) + rest) == Good(j, rest)
    decreases j
  {
    hide Read, Quote, PrintItems, PrintMembers;
    match j
    case Null => ReadWord("null", Null, rest);
    case Bool(b) => ReadWord(if b then "true" else "false", Bool(b), rest);
    case Number(t) => ReadNumber(t, rest);
    case String(s) => ReadString(s, rest);
    case Array(items) =>
      if items != [] {
        ReadPrintItems(items, rest);
      }
      ReadPrintArray(items, rest);
    case Object(members) =>
      if members != [] {
        ReadPrintMembers(members, rest);
      }
      ReadPrintObject(members, rest);
  }

  lemma ReadPrintArray(items: seq<Json>, rest: string)
    requires items != [] ==> Sound(items[0]) && ReadItems(PrintItems(items) + "]" + rest) == Good(items, rest)
    ensures Read("[" + PrintItems(items) + "]" + rest) == Good(Array(items), rest)
  {
    hide Read, ReadItems, PrintItems;
    if items == [] {
      NoItems();
      ReadEmpty(rest);
      assert "[" + "" + "]" == "[]";
    } else {
      var u := PrintItems(items) + "]" + rest;
      StartsItems(items);
      ReadArray(u);
      Bracketed("[", PrintItems(items), "]", rest);
    }
  }

  lemma ReadPrintObject(members: seq<Member>, rest: string)
    requires members != [] ==> ReadMembers(PrintMembers(members) + "}" + rest) == Good(members, rest)
    ensures Read("{" + PrintMembers(members) + "}" + rest) == Good(Object(members), rest)
  {
    hide Read, ReadMembers, PrintMembers;
    if members == [] {
      NoItems();
      ReadEmpty(rest);
      assert "{" + "" + "}" == "{}";
    } else {
      var u := PrintMembers(members) + "}" + rest;
      StartsMembers(members);
      ReadObject(u);
      Bracketed("{", PrintMembers(members), "}", rest);
    }
  }

  lemma Bracketed(a: string, b: string, c: string, rest: string)
    ensures a + b + c + rest == a + (b + c + rest)
  {
  }

  lemma StartsItems(items: seq<Json>)
    requires items != [] && Sound(items[0])
    ensures PrintItems(items) != "" && PrintItems(items)[0] != ']'
  {
    hide Print, PrintItems;
    assert items == [items[0]] + items[1..];
    ItemsFromFront(items[0], items[1..]);
    PrintStarts(items[0]);
  }

  lemma StartsMembers(members: seq<Member>)
    requires members != []
    ensures PrintMembers(members) != "" && PrintMembers(members)[0] == '"'
  {
    hide Print, PrintMembers, Escape;
    assert members == [members[0]] + members[1..];
    MembersFromFront(members[0], members[1..]);
  }

  lemma ItemThen(t: string, j: Json, rest: string)
    requires Read(t) == Good(j, rest) && rest != "" && (rest[0] == ']' || rest[0] == ',')
    ensures rest[0] == ']' ==> ReadItems(t) == Good([j], rest[1..])
    ensures rest[0] == ',' && ReadItems(rest[1..]).Good? ==>
      ReadItems(t) == Good([j] + ReadItems(rest[1..]).value, ReadItems(rest[1..]).rest)
  {
    hide Read;
  }

  lemma {:induction false} ReadPrintItems(items: seq<Json>, rest: string)
    requires items != [] && forall i :: 0 <= i < |items| ==> Sound(items[i])
    ensures ReadItems(PrintItems(items) + "]" + rest) == Good(items, rest)
    decreases items
  {
    hide Read, ReadItems, Print, PrintItems;
    var j, js := items[0], items[1..];
    assert items == [j] + js;
    ItemsFromFront(j, js);
    var t := PrintItems(items) + "]" + rest;
    if js == [] {
      var after := "]" + rest;
      ReadPrint(j, after);
      assert t == Print(j) + after;
      ItemThen(t, j, after);
      assert after[1..] == rest && [j] + [] == [j];
    } else {
      var u := PrintItems(js) + "]" + rest;
      ReadPrintItems(js, rest);
      var after := "," + u;
      ReadPrint(j, after);
      assert t == Print(j) + after;
      assert after[1..] == u;
      ItemThen(t, j, after);
    }
  }

  lemma MemberThen(m: Member, rest: string)
    requires Read(Print(m.value) + rest) == Good(m.value, rest) && rest != "" && (rest[0] == '}' || rest[0] == ',')
    ensures rest[0] == '}' ==> ReadMembers(PrintMember(m) + rest) == Good([m], rest[1..])
    ensures rest[0] == ',' && ReadMembers(rest[1..]).Good? ==>
      ReadMembers(PrintMember(m) + rest) == Good([m] + ReadMembers(rest[1..]).value, ReadMembers(rest[1..]).rest)
  {
    hide Read, ReadChars, ReadMembers, Escape, Print;
    var v := Print(m.value) + rest;
    ReadQuoted(m.key, ":" + v);
    MemberText(Escape(m.key), Print(m.value), rest);
    MemberStep(Escape(m.key) + "\"" + (":" + v), m.key, v, m.value, rest);
  }

  lemma MemberText(k: string, p: string, rest: string)
    ensures "\"" + k + "\"" + ":" + p + rest == "\"" + (k + "\"" + (":" + (p + rest)))
  {
  }

  lemma MemberStep(u: string, key: string, v: string, j: Json, rest: string)
    requires ReadChars(u) == Good(key, ":" + v) && Read(v) == Good(j, rest)
    requires rest != "" && (rest[0] == '}' || rest[0] == ',')
    ensures rest[0] == '}' ==> ReadMembers("\"" + u) == Good([Member(key, j)], rest[1..])
    ensures rest[0] == ',' && ReadMembers(rest[1..]).Good? ==>
      ReadMembers("\"" + u) == Good([Member(key, j)] + ReadMembers(rest[1..]).value, ReadMembers(rest[1..]).rest)
  {
    hide Read, ReadChars;
    After("\"", u);
    After(":", v);
  }

  lemma {:induction false} ReadPrintMembers(members: seq<Member>, rest: string)
    requires members != [] && forall i :: 0 <= i < |members| ==> Sound(members[i].value)
    ensures ReadMembers(PrintMembers(members) + "}" + rest) == Good(members, rest)
    decreases members
  {
    hide Read, ReadMembers, Print, PrintMembers, PrintMember;
    var m, ms := members[0], members[1..];
    assert members == [m] + ms;
    MembersFromFront(m, ms);
    var t := PrintMembers(members) + "}" + rest;
    if ms == [] {
      var after := "}" + rest;
      ReadPrint(m.value, after);
      assert t == PrintMember(m) + after;
      MemberThen(m, after);
      assert after[1..] == rest && [m] + [] == [m];
    } else {
      var u := PrintMembers(ms) + "}" + rest;
      ReadPrintMembers(ms, rest);
      var after := "," + u;
      ReadPrint(m.value, after);
      assert t == PrintMember(m) + after;
      assert after[1..] == u;
      MemberThen(m, after);
    }
  }

  // ---------------------------------------------------------------- integers

  lemma {:induction false} DecimalStarts(n: nat)
    ensures StartsWithDigit(Names.Decimal(n)) && (Names.Decimal(n)[0] == '0' <==> n == 0)
    ensures SkipDigits(Names.Decimal(n)) == ""
  {
    Names.DecimalDigits(n);
    AllDigits(Names.Decimal(n));
    if n >= 10 {
      DecimalStarts(n / 10);
    }
  }

  lemma {:induction false} AllDigits(t: string)
    requires Names.IsDigits(t)
    ensures SkipDigits(t) == ""
  {
    if t != "" {
      AllDigits(t[1..]);
    }
  }

  lemma IntegerIsNumber(i: int)
    ensures IsNumber(IntegerText(i))
  {
    hide Names.Decimal, SkipDigits;
    var n := if i < 0 then -i else i;
    var d := Names.Decimal(n);
    DecimalStarts(n);
    assert n == 0 ==> d == "0" by { ZeroIsShort(); }
    assert i < 0 ==> IntegerText(i)[1..] == d;
  }

  /** The integer that a text of digits, perhaps after a minus sign, stands for. */
  function NumberValue(t: string): Option<int> {
    if t == "" then None
    else if t[0] == '-' then
      match Names.DigitsValue(t[1..])
      case None => None
      case Some(n) => if |t| == 1 then None else Some(-(n as int))
    else
      match Names.DigitsValue(t)
      case None => None
      case Some(n) => Some(n)
  }

  /** The text of an integer stands for it. */
  lemma IntegerBack(i: int)
    ensures NumberValue(IntegerText(i)) == Some(i)
  {
    hide Names.Decimal, Names.DigitsValue;
    var n := if i < 0 then -i else i;
    Names.DecimalDigits(n);
    var d := Names.Decimal(n);
    if i < 0 {
      assert IntegerText(i)[1..] == d;
    } else {
      assert '0' <= d[0] <= '9';
    }
  }

  lemma ZeroIsShort()
    ensures Names.Decimal(0) == "0"
  {
  }
}
