/** Writing a text value into an SQL dump so that evaluating the dump gives the value back
    (`sqld/src/connection/dump/exporter.rs`). */
module SqlEscape {
  import Names = ObjectNames

  // ---------------------------------------------------------------- what SQL makes of it

  /** SQLite's `replace`: every occurrence of `pattern`, from left to right. */
  function ReplaceAll(text: string, pattern: string, sub: string): string {
    if text == "" || pattern == "" then text
    else if pattern <= text then sub + ReplaceAll(text[|pattern|..], pattern, sub)
    else [text[0]] + ReplaceAll(text[1..], pattern, sub)
  }

  const REPLACE := "replace("
  const CHAR10 := ",char(10))"
  const CHAR13 := ",char(13))"

  /** The value of an expression and the text after it. */
  datatype Value = Bad | Good(value: string, rest: string)

  /** A string literal after its opening quote. */
  function Literal(t: string): Value {
    if t == "" then Bad
    else if t[0] == '\'' && !("''" <= t) then Good("", t[1..])
    else
      match Literal(if t[0] == '\'' then t[2..] else t[1..])
      case Bad => Bad
      case Good(value, rest) => Good([t[0]] + value, rest)
  }

  /** String literals and calls `replace(expression,literal,char(10 or 13))`. */
  function Eval(t: string): Value {
    if "'" <= t then Literal(t[1..])
    else if !(REPLACE <= t) then Bad
    else
      match Eval(t[|REPLACE|..])
      case Bad => Bad
      case Good(value, rest) => if ",'" <= rest then Call(value, Literal(rest[2..])) else Bad
  }

  function Call(value: string, pattern: Value): Value {
    match pattern
    case Bad => Bad
    case Good(token, rest) =>
      if CHAR13 <= rest then Good(ReplaceAll(value, token, "\r"), rest[|CHAR13|..])
      else if CHAR10 <= rest then Good(ReplaceAll(value, token, "\n"), rest[|CHAR10|..])
      else Bad
  }

  // ---------------------------------------------------------------- substitution

  /** The text with some characters spelled out. */
  function Subst(s: string, m: map<char, string>): string {
    if s == "" then ""
    else (if s[0] in m then m[s[0]] else [s[0]]) + Subst(s[1..], m)
  }

  lemma {:induction false} SubstConcat(a: string, b: string, m: map<char, string>)
    ensures Subst(a + b, m) == Subst(a, m) + Subst(b, m)
  {
    if a == "" {
      assert a + b == b;
    } else {
      assert (a + b)[1..] == a[1..] + b;
      SubstConcat(a[1..], b, m);
    }
  }

  /** Characters that stand for themselves. */
  lemma {:induction false} SubstPlain(s: string, m: map<char, string>)
    requires forall c :: c in s && c in m ==> m[c] == [c]
    ensures Subst(s, m) == s
  {
    if s != "" {
      assert s[0] in s;
      SubstPlain(s[1..], m);
    }
  }

  // ---------------------------------------------------------------- tokens do not run into each other

  /** Neither text continues the other. */
  ghost predicate Disagree(a: string, b: string) {
    exists k :: 0 <= k < |a| && k < |b| && a[k] != b[k]
  }

  lemma DisagreeNoPrefix(a: string, b: string, rest: string)
    requires Disagree(a, b)
    ensures !(a <= b + rest)
  {
    var k :| 0 <= k < |a| && k < |b| && a[k] != b[k];
    assert (b + rest)[k] == b[k];
  }

  /** No occurrence of `p` starts or ends inside an occurrence of `q`. */
  ghost predicate Separate(p: string, q: string) {
    && (forall j :: 0 <= j < |p| ==> Disagree(p[j..], q))
    && (forall j :: 0 < j < |q| ==> Disagree(p, q[j..]))
  }

  ghost predicate SelfSeparate(p: string) {
    forall j :: 0 < j < |p| ==> Disagree(p[j..], p)
  }

  predicate Contains(haystack: string, needle: string) {
    exists i :: 0 <= i <= |haystack| && OccursAt(haystack, needle, i)
  }

  predicate OccursAt(haystack: string, needle: string, i: int) {
    0 <= i <= |haystack| && needle <= haystack[i..]
  }

  ghost predicate Readable(m: map<char, string>, c: char) {
    && c in m && m[c] != "" && SelfSeparate(m[c])
    && (forall d :: d in m && d != c ==> Separate(m[c], m[d]))
  }

  /** Where the spelling of `c` occurs in the substituted text but no `c` was, the original
      text has it literally. */
  lemma {:induction false} MatchIsLiteral(s: string, m: map<char, string>, c: char, j: nat)
    requires Readable(m, c) && j <= |m[c]| && (j > 0 || s == "" || s[0] != c)
    ensures m[c][j..] <= Subst(s, m) ==> m[c][j..] <= s
    decreases |s|
  {
    var p := m[c];
    if s != "" && j < |p| {
      if s[0] in m {
        assert Disagree(p[j..], m[s[0]]);
        DisagreeNoPrefix(p[j..], m[s[0]], Subst(s[1..], m));
      } else {
        MatchIsLiteral(s[1..], m, c, j + 1);
        assert p[j..] == [p[j]] + p[j + 1..];
        Behind(p[j..], s[0], Subst(s[1..], m));
        Behind(p[j..], s[0], s[1..]);
        assert s == [s[0]] + s[1..];
      }
    }
  }

  lemma Behind(p: string, c: char, rest: string)
    requires p != ""
    ensures p <= [c] + rest <==> p[0] == c && p[1..] <= rest
  {
    assert p == [p[0]] + p[1..];
    assert |p| <= |rest| + 1 ==> ([c] + rest)[1..|p|] == rest[..|p| - 1];
  }

  lemma {:induction false} SkipToken(p: string, q: string, rest: string, sub: string, j: nat)
    requires p != "" && Separate(p, q) && j <= |q|
    ensures ReplaceAll(q[j..] + rest, p, sub) == q[j..] + ReplaceAll(rest, p, sub)
    decreases |q| - j
  {
    if j == |q| {
      assert q[j..] + rest == rest && q[j..] + ReplaceAll(rest, p, sub) == ReplaceAll(rest, p, sub);
    } else {
      SkipToken(p, q, rest, sub, j + 1);
      assert p[0..] == p && q[0..] == q;
      DisagreeNoPrefix(p, q[j..], rest);
      hide Separate, Disagree;
      SkipChar(p, q[j], q[j + 1..] + rest, sub);
      assert q[j..] + rest == [q[j]] + (q[j + 1..] + rest);
      assert [q[j]] + (q[j + 1..] + ReplaceAll(rest, p, sub)) == q[j..] + ReplaceAll(rest, p, sub);
    }
  }

  lemma SkipChar(p: string, c: char, rest: string, sub: string)
    requires p != "" && !(p <= [c] + rest)
    ensures ReplaceAll([c] + rest, p, sub) == [c] + ReplaceAll(rest, p, sub)
  {
    assert ([c] + rest)[1..] == rest;
  }

  lemma Later(s: string, p: string, i: nat)
    requires s != ""
    ensures OccursAt(s[1..], p, i) ==> OccursAt(s, p, i + 1)
  {
    assert i < |s| ==> s[1..][i..] == s[i + 1..];
  }

  lemma NotLater(s: string, p: string)
    requires s != "" && !Contains(s, p)
    ensures !Contains(s[1..], p) && !(p <= s)
  {
    forall i: nat
      ensures !OccursAt(s[1..], p, i)
    {
      Later(s, p, i);
    }
    assert s[0..] == s;
    assert !OccursAt(s, p, 0);
  }

  /** Replacing a spelling that the text did not have undoes exactly that spelling. */
  lemma {:induction false} ReplaceUndoes(s: string, m: map<char, string>, c: char)
    requires Readable(m, c) && !Contains(s, m[c])
    ensures ReplaceAll(Subst(s, m), m[c], [c]) == Subst(s, m[c := [c]])
    decreases |s|
  {
    hide Contains, Disagree, Separate, SelfSeparate;
    var p := m[c];
    if s != "" {
      var rest := Subst(s[1..], m);
      NotLater(s, p);
      ReplaceUndoes(s[1..], m, c);
      if s[0] == c {
        assert p <= p + rest && (p + rest)[|p|..] == rest;
      } else if s[0] in m {
        var q := m[s[0]];
        SkipToken(p, q, rest, [c], 0);
        assert q[0..] == q;
      } else {
        MatchIsLiteral(s, m, c, 0);
        assert p[0..] == p;
        assert ([s[0]] + rest)[1..] == rest;
      }
    }
  }

  // ---------------------------------------------------------------- an unused token

  function Numbered(needle1: string, i: nat): string {
    "(" + needle1 + Names.Decimal(i) + ")"
  }

  /** Different numbers cannot be found at the same place. */
  lemma OneNumberPerPlace(needle1: string, i: nat, j: nat, t: string)
    requires Numbered(needle1, i) <= t && Numbered(needle1, j) <= t
    ensures i == j
  {
    hide Names.Decimal;
    Names.DecimalDigits(i);
    Names.DecimalDigits(j);
    var x, y, head := Names.Decimal(i), Names.Decimal(j), "(" + needle1;
    NumberAt(head, x, t);
    NumberAt(head, y, t);
    assert t[|head| + |x|] == ')' && t[|head| + |y|] == ')';
    assert |x| == |y|;
    assert x == y;
  }

  lemma NumberAt(head: string, x: string, t: string)
    requires head + x + ")" <= t
    ensures t[|head| + |x|] == ')'
    ensures forall k :: 0 <= k < |x| ==> t[|head| + k] == x[k]
  {
    var n := head + x + ")";
    assert forall k :: 0 <= k < |n| ==> t[k] == n[k];
    assert forall k :: 0 <= k < |x| ==> n[|head| + k] == x[k];
  }

  ghost predicate IsPlace(haystack: string, needle1: string, n: nat, p: int) {
    exists i: nat :: i < n && OccursAt(haystack, Numbered(needle1, i), p)
  }

  /** Numbered needles that all occur have that many places. */
  lemma {:induction false} Places(haystack: string, needle1: string, n: nat) returns (places: set<int>)
    requires forall i: nat :: i < n ==> Contains(haystack, Numbered(needle1, i))
    ensures |places| == n && forall p :: p in places ==> IsPlace(haystack, needle1, n, p)
  {
    hide Numbered;
    if n == 0 {
      places := {};
    } else {
      var before := Places(haystack, needle1, n - 1);
      var p :| 0 <= p <= |haystack| && OccursAt(haystack, Numbered(needle1, n - 1), p);
      forall q | q in before
        ensures q != p && IsPlace(haystack, needle1, n, q)
      {
        var i: nat :| i < n - 1 && OccursAt(haystack, Numbered(needle1, i), q);
        if q == p {
          OneNumberPerPlace(needle1, i, n - 1, haystack[p..]);
        }
      }
      places := before + {p};
    }
  }

  /** So there are no more of them than characters. */
  lemma FewNumbers(haystack: string, needle1: string, n: nat)
    requires forall i: nat :: i < n ==> Contains(haystack, Numbered(needle1, i))
    ensures n <= |haystack|
  {
    var places := Places(haystack, needle1, n);
    forall p | p in places
      ensures 0 <= p < |haystack|
    {
      var i: nat :| i < n && OccursAt(haystack, Numbered(needle1, i), p);
    }
    FewPlaces(places, |haystack|);
  }

  lemma {:induction false} FewPlaces(places: set<int>, n: nat)
    requires forall p :: p in places ==> 0 <= p < n
    ensures |places| <= n
  {
    if n == 0 {
      assert forall p :: p !in places;
      assert places <= {};
    } else {
      FewPlaces(places - {n - 1}, n - 1);
    }
  }

  /** Finds a text that does not occur in the haystack.  The search ends: every number tried
      needs a place of its own in the haystack. */
  method FindUnusedStr(haystack: string, needle1: string, needle2: string) returns (r: string)
    ensures !Contains(haystack, r)
    ensures r == needle1 || r == needle2 ||
      exists i: nat :: i <= |haystack| && r == Numbered(needle1, i) &&
        forall k: nat :: k < i ==> Contains(haystack, Numbered(needle1, k))
    ensures !Contains(haystack, needle1) ==> r == needle1
    ensures Contains(haystack, needle1) && !Contains(haystack, needle2) ==> r == needle2
  {
    hide Contains, Numbered;
    if !Contains(haystack, needle1) {
      return needle1;
    }
    if !Contains(haystack, needle2) {
      return needle2;
    }
    var i: nat := 0;
    while true
      invariant i <= |haystack|
      invariant forall k: nat :: k < i ==> Contains(haystack, Numbered(needle1, k))
      decreases |haystack| - i
    {
      var needle := Numbered(needle1, i);
      if !Contains(haystack, needle) {
        return needle;
      }
      i := i + 1;
      FewNumbers(haystack, needle1, i);
    }
  }

  // ---------------------------------------------------------------- the tokens of line breaks

  /** A token for the escape letter `x` and the last octal digit `y`. */
  ghost predicate IsToken(t: string, x: char, y: char) {
    t == ['\\', x] || t == ['\\', '0', '1', y] || exists i: nat :: t == Numbered(['\\', x], i)
  }

  /** A numbered token by its characters. */
  lemma NumberedChars(x: char, i: nat)
    ensures var t := Numbered(['\\', x], i);
      && |t| >= 5 && t[0] == '(' && t[1] == '\\' && t[2] == x
      && forall k :: 3 <= k < |t| ==> '0' <= t[k] <= '9' || t[k] == ')'
  {
    hide Names.Decimal;
    Names.DecimalDigits(i);
    var d := Names.Decimal(i);
    assert Numbered(['\\', x], i) == ['(', '\\', x] + d + ")";
  }

  ghost predicate IsPlain(t: string) {
    '\'' !in t && '\n' !in t && '\r' !in t && '\0' !in t
  }

  /** By its first characters a token is of the short, the octal or the numbered form. */
  ghost predicate Shape(t: string, x: char, y: char) {
    && |t| >= 2 && IsPlain(t)
    && (|| (|t| == 2 && t[0] == '\\' && t[1] == x)
        || (|t| == 4 && t[0] == '\\' && t[1] == '0' && t[2] == '1' && t[3] == y)
        || (|t| >= 5 && t[0] == '(' && t[1] == '\\' && t[2] == x
            && forall k :: 3 <= k < |t| ==> '0' <= t[k] <= '9' || t[k] == ')'))
  }

  lemma TokenShape(t: string, x: char, y: char)
    requires IsToken(t, x, y) && 'a' <= x <= 'z' && '0' <= y <= '9'
    ensures Shape(t, x, y)
  {
    hide Numbered;
    if i: nat :| t == Numbered(['\\', x], i) {
      NumberedChars(x, i);
    }
  }

  lemma DisagreeAt(a: string, b: string, k: nat)
    requires k < |a| && k < |b| && a[k] != b[k]
    ensures Disagree(a, b)
  {
  }

  lemma TokenSelfSeparate(t: string, x: char, y: char)
    requires Shape(t, x, y) && 'a' <= x <= 'z' && '0' <= y <= '9'
    ensures SelfSeparate(t)
  {
    forall j | 0 < j < |t|
      ensures Disagree(t[j..], t)
    {
      DisagreeAt(t[j..], t, 0);
    }
  }

  lemma TokenSeparateFromChar(t: string, x: char, y: char, c: char)
    requires Shape(t, x, y) && (c == '\r' || c == '\n')
    ensures Separate(t, [c])
  {
    forall j | 0 <= j < |t|
      ensures Disagree(t[j..], [c])
    {
      assert t[j] in t;
      DisagreeAt(t[j..], [c], 0);
    }
  }

  lemma TokensSeparate(p: string, q: string)
    requires Shape(p, 'r', '5') && Shape(q, 'n', '2')
    ensures Separate(p, q)
  {
    forall j | 0 <= j < |p|
      ensures Disagree(p[j..], q)
    {
      DisagreeAt(p[j..], q,
                 if p[j] != q[0] then 0
                 else if p[0] == '(' == q[0] then 2
                 else if p[0] == '(' || |p| == 2 || |q| == 2 then 1
                 else 3);
    }
    forall j | 0 < j < |q|
      ensures Disagree(p, q[j..])
    {
      DisagreeAt(p, q[j..], if p[0] != q[j] then 0 else 1);
    }
  }

  // ---------------------------------------------------------------- evaluating the output

  const QUOTES: map<char, string> := map['\'' := "''"]

  ghost predicate NoQuoteNext(rest: string) {
    rest == "" || rest[0] != '\''
  }

  lemma AfterPrefix(a: string, b: string)
    ensures a <= a + b && (a + b)[|a|..] == b
  {
  }

  lemma LiteralStep(c: char, u: string)
    requires Literal(u).Good?
    ensures Literal((if c == '\'' then "''" else [c]) + u) == Good([c] + Literal(u).value, Literal(u).rest)
  {
    if c == '\'' {
      AfterPrefix("''", u);
      assert ("''" + u)[0] == '\'';
    } else {
      AfterPrefix([c], u);
    }
  }

  lemma LiteralEnd(rest: string)
    requires NoQuoteNext(rest)
    ensures Literal("'" + rest) == Good("", rest)
  {
    AfterPrefix("'", rest);
    assert |rest| > 0 ==> ("'" + rest)[1] == rest[0];
  }

  /** Doubling the quotes makes a literal of the text. */
  lemma {:induction false} LiteralOf(x: string, rest: string)
    requires NoQuoteNext(rest)
    ensures Literal(Subst(x, QUOTES) + "'" + rest) == Good(x, rest)
  {
    hide Literal;
    if x == "" {
      LiteralEnd(rest);
      assert Subst(x, QUOTES) + "'" + rest == "'" + rest;
    } else {
      LiteralOf(x[1..], rest);
      var head, u := if x[0] == '\'' then "''" else [x[0]], Subst(x[1..], QUOTES);
      LiteralStep(x[0], u + "'" + rest);
      assert head + u + "'" + rest == head + (u + "'" + rest);
      assert x == [x[0]] + x[1..];
    }
  }

  /** A text without quotes is a literal as it is. */
  lemma LiteralOfPlain(x: string, rest: string)
    requires '\'' !in x && NoQuoteNext(rest)
    ensures Literal(x + "'" + rest) == Good(x, rest)
  {
    SubstPlain(x, QUOTES);
    LiteralOf(x, rest);
  }

  /** Spelling out and doubling the quotes can be done in one pass. */
  lemma {:induction false} SubstTwice(s: string, m: map<char, string>)
    requires '\'' !in m && forall c :: c in m ==> '\'' !in m[c]
    ensures Subst(s, m['\'' := "''"]) == Subst(Subst(s, m), QUOTES)
  {
    if s != "" {
      SubstTwice(s[1..], m);
      var head := if s[0] in m then m[s[0]] else [s[0]];
      SubstConcat(head, Subst(s[1..], m), QUOTES);
      if s[0] in m {
        SubstPlain(head, QUOTES);
      } else {
        assert Subst([s[0]], QUOTES) == if s[0] == '\'' then "''" else [s[0]];
      }
    }
  }

  function Quoted(s: string, m: map<char, string>): string {
    "'" + Subst(s, m['\'' := "''"]) + "'"
  }

  function Ending(c: char): string {
    if c == '\r' then CHAR13 else CHAR10
  }

  /** A call that turns a token into the given line break. */
  function Restoring(e: string, token: string, c: char): string {
    REPLACE + e + ",'" + token + "'" + Ending(c)
  }

  /** The text of the dump, given the tokens of the line breaks that occur. */
  function Wrapped(s: string, m: map<char, string>): string {
    var inner := if '\r' in m then Restoring(Quoted(s, m), m['\r'], '\r') else Quoted(s, m);
    if '\n' in m then Restoring(inner, m['\n'], '\n') else inner
  }

  lemma EvalQuoted(s: string, m: map<char, string>, rest: string)
    requires '\'' !in m && forall c :: c in m ==> '\'' !in m[c]
    requires NoQuoteNext(rest)
    ensures Eval(Quoted(s, m) + rest) == Good(Subst(s, m), rest)
  {
    hide Subst, Literal, Call;
    var t := Quoted(s, m) + rest;
    SubstTwice(s, m);
    LiteralOf(Subst(s, m), rest);
    assert t[1..] == Subst(Subst(s, m), QUOTES) + "'" + rest;
  }

  lemma CallOf(value: string, token: string, c: char, rest: string)
    requires c == '\r' || c == '\n'
    ensures Call(value, Good(token, Ending(c) + rest)) == Good(ReplaceAll(value, token, [c]), rest)
  {
    hide ReplaceAll;
    AfterPrefix(Ending(c), rest);
    assert CHAR13[6] == '1' && CHAR13[7] == '3' && CHAR10[7] == '0';
    assert (Ending(c) + rest)[7] == Ending(c)[7];
  }

  lemma EvalCall(e: string, value: string, next: string)
    requires Eval(e + next) == Good(value, next) && ",'" <= next
    ensures Eval(REPLACE + (e + next)) == Call(value, Literal(next[2..]))
  {
    hide Literal, Call;
    AfterPrefix(REPLACE, e + next);
    assert (REPLACE + (e + next))[0] == 'r';
  }

  lemma EvalRestoring(e: string, value: string, token: string, c: char, rest: string)
    requires c == '\r' || c == '\n'
    requires '\'' !in token
    requires forall r: string :: NoQuoteNext(r) ==> Eval(e + r) == Good(value, r)
    ensures Eval(Restoring(e, token, c) + rest) == Good(ReplaceAll(value, token, [c]), rest)
  {
    hide ReplaceAll, Literal, Eval, Call;
    var last := Ending(c) + rest;
    var next := ",'" + (token + "'" + last);
    assert Ending(c)[0] == ',';
    LiteralOfPlain(token, last);
    CallOf(value, token, c, rest);
    AfterPrefix(",'", token + "'" + last);
    assert Eval(e + next) == Good(value, next);
    EvalCall(e, value, next);
    Regroup(REPLACE, e, ",'", token, Ending(c), rest);
  }

  lemma Regroup(r: string, e: string, comma: string, token: string, ending: string, rest: string)
    ensures r + e + comma + token + "'" + ending + rest == r + (e + (comma + (token + "'" + (ending + rest))))
  {
  }

  /** Tokens fit for a text: one for each kind of line break in it, unused in it. */
  ghost predicate Fit(s: string, m: map<char, string>) {
    && m.Keys <= {'\n', '\r'}
    && (forall c :: c in m <==> c in {'\n', '\r'} && c in s)
    && ('\n' in m ==> Shape(m['\n'], 'n', '2'))
    && ('\r' in m ==> Shape(m['\r'], 'r', '5'))
    && (forall c :: c in m ==> !Contains(s, m[c]))
  }

  lemma FitReadable(s: string, m: map<char, string>)
    requires Fit(s, m)
    ensures '\r' in m ==> Readable(m, '\r')
    ensures '\n' in m ==> Readable(m, '\n') || '\r' in m
    ensures '\n' in m && '\r' in m ==> Readable(m['\r' := "\r"], '\n')
  {
    hide Contains;
    if '\n' in m {
      TokenSelfSeparate(m['\n'], 'n', '2');
      TokenSeparateFromChar(m['\n'], 'n', '2', '\r');
    }
    if '\r' in m {
      TokenSelfSeparate(m['\r'], 'r', '5');
    }
    if '\n' in m && '\r' in m {
      TokensSeparate(m['\r'], m['\n']);
    }
  }

  /** Undoing the tokens from the inside out leaves the text. */
  lemma Undone(s: string, m: map<char, string>)
    requires Fit(s, m)
    ensures var inner := if '\r' in m then ReplaceAll(Subst(s, m), m['\r'], "\r") else Subst(s, m);
      (if '\n' in m then ReplaceAll(inner, m['\n'], "\n") else inner) == s
  {
    hide Contains, Shape, ReplaceAll, Readable;
    FitReadable(s, m);
    var m1 := if '\r' in m then m['\r' := "\r"] else m;
    if '\r' in m {
      ReplaceUndoes(s, m, '\r');
    }
    if '\n' in m {
      ReplaceUndoes(s, m1, '\n');
      SubstPlain(s, m1['\n' := "\n"]);
    } else {
      SubstPlain(s, m1);
    }
  }

  /** Evaluating the dump text gives the original text back. */
  lemma EvalWrapped(s: string, m: map<char, string>, rest: string)
    requires Fit(s, m) && NoQuoteNext(rest)
    ensures Eval(Wrapped(s, m) + rest) == Good(s, rest)
  {
    hide Eval, Contains, Subst, ReplaceAll, Quoted, Restoring;
    Undone(s, m);
    var value := if '\r' in m then ReplaceAll(Subst(s, m), m['\r'], "\r") else Subst(s, m);
    var inner := if '\r' in m then Restoring(Quoted(s, m), m['\r'], '\r') else Quoted(s, m);
    forall r: string | NoQuoteNext(r)
      ensures Eval(Quoted(s, m) + r) == Good(Subst(s, m), r)
    {
      EvalQuoted(s, m, r);
    }
    forall r: string | NoQuoteNext(r)
      ensures Eval(inner + r) == Good(value, r)
    {
      if '\r' in m {
        EvalRestoring(Quoted(s, m), Subst(s, m), m['\r'], '\r', r);
      }
    }
    if '\n' in m {
      EvalRestoring(inner, value, m['\n'], '\n', rest);
    }
  }

  ghost predicate OneLine(t: string) {
    '\n' !in t && '\r' !in t
  }

  lemma {:induction false} SubstLacks(s: string, m: map<char, string>, x: char)
    requires x in s ==> x in m
    requires forall c :: c in m ==> x !in m[c]
    ensures x !in Subst(s, m)
  {
    if s != "" {
      assert s[0] in s;
      SubstLacks(s[1..], m, x);
    }
  }

  lemma RestoringLacks(e: string, token: string, c: char, x: char)
    requires x == '\n' || x == '\r' || x == '\0'
    requires x !in e && x !in token
    ensures x !in Restoring(e, token, c)
  {
    assert x !in REPLACE && x !in Ending(c) && x !in ",'" && x !in "'";
  }

  /** The text of the dump has no line break, and no NUL character unless the value has one. */
  lemma WrappedLacks(s: string, m: map<char, string>, x: char)
    requires Fit(s, m)
    requires x == '\n' || x == '\r' || (x == '\0' && x !in s)
    ensures x !in Wrapped(s, m)
  {
    hide Contains, Subst, Restoring;
    SubstLacks(s, m['\'' := "''"], x);
    if '\r' in m {
      RestoringLacks(Quoted(s, m), m['\r'], '\r', x);
    }
    if '\n' in m {
      RestoringLacks(if '\r' in m then Restoring(Quoted(s, m), m['\r'], '\r') else Quoted(s, m), m['\n'], '\n', x);
    }
  }

  // ---------------------------------------------------------------- NUL characters

  /** What SQLite reads of a statement: all before the first NUL character. */
  function Seen(t: string): string {
    if t == "" || t[0] == '\0' then "" else [t[0]] + Seen(t[1..])
  }

  lemma {:induction false} SeenChars(t: string)
    ensures '\0' !in Seen(t)
    ensures '\0' !in t ==> Seen(t) == t
  {
    if t != "" {
      assert t[0] in t;
      SeenChars(t[1..]);
    }
  }

  lemma {:induction false} ReplaceChars(text: string, pattern: string, sub: string, x: char)
    requires x !in text && x !in sub
    ensures x !in ReplaceAll(text, pattern, sub)
  {
    if text != "" && pattern != "" {
      if pattern <= text {
        ReplaceChars(text[|pattern|..], pattern, sub, x);
      } else {
        ReplaceChars(text[1..], pattern, sub, x);
      }
    }
  }

  lemma {:induction false} LiteralChars(t: string, x: char)
    requires x !in t && Literal(t).Good?
    ensures x !in Literal(t).value && x !in Literal(t).rest
  {
    if !(t[0] == '\'' && !("''" <= t)) {
      LiteralChars(if t[0] == '\'' then t[2..] else t[1..], x);
    }
  }

  /** Evaluating makes up no characters but line breaks. */
  lemma {:induction false} EvalChars(t: string, x: char)
    requires x !in t && x != '\n' && x != '\r' && Eval(t).Good?
    ensures x !in Eval(t).value && x !in Eval(t).rest
  {
    hide Literal, ReplaceAll;
    if "'" <= t {
      LiteralChars(t[1..], x);
    } else {
      EvalChars(t[|REPLACE|..], x);
      var e := Eval(t[|REPLACE|..]);
      LiteralChars(e.rest[2..], x);
      var pattern := Literal(e.rest[2..]);
      ReplaceChars(e.value, pattern.value, if CHAR13 <= pattern.rest then "\r" else "\n", x);
    }
  }

  /** A value that is lost: the text of a single NUL character. */
  lemma NulIsCutOff()
    ensures Eval("'\0'") == Good("\0", "") && Eval(Seen("'\0'")) == Bad
  {
    assert "'\0'"[1..] == "\0'" && "\0'"[1..] == "'" && "'"[1..] == "";
    assert Literal("'") == Good("", "");
    assert Seen("\0'") == "" && Seen("'\0'") == "'" + "";
  }

  /** The dump gives the value back if and only if the value has no NUL character. */
  lemma SeenDecides(out: string, s: string, rest: string)
    requires Eval(out + rest) == Good(s, rest)
    requires '\0' !in s ==> '\0' !in out
    ensures '\0' !in rest ==> (Eval(Seen(out + rest)) == Good(s, rest) <==> '\0' !in s)
  {
    hide Eval;
    if '\0' !in rest {
      SeenChars(out + rest);
      if '\0' in s && Eval(Seen(out + rest)).Good? {
        EvalChars(Seen(out + rest), '\0');
      }
    }
  }

  // ---------------------------------------------------------------- writing

  predicate IsSpecial(c: char) {
    c == '\'' || c == '\n' || c == '\r'
  }

  /** How many characters come before the first special one. */
  method PlainPrefix(s: string) returns (n: nat)
    ensures n <= |s| && (forall i :: 0 <= i < n ==> !IsSpecial(s[i])) && (n < |s| ==> IsSpecial(s[n]))
  {
    n := 0;
    while n < |s| && !IsSpecial(s[n])
      invariant n <= |s| && forall i :: 0 <= i < n ==> !IsSpecial(s[i])
    {
      n := n + 1;
    }
  }

  /** Whether there are line feeds and carriage returns. */
  method CountBreaks(s: string) returns (numNl: nat, numCr: nat)
    ensures numNl != 0 <==> '\n' in s
    ensures numCr != 0 <==> '\r' in s
  {
    numNl, numCr := 0, 0;
    for i := 0 to |s|
      invariant numNl != 0 <==> '\n' in s[..i]
      invariant numCr != 0 <==> '\r' in s[..i]
    {
      assert s[..i + 1] == s[..i] + [s[i]];
      if s[i] == '\n' {
        numNl := numNl + 1;
      } else if s[i] == '\r' {
        numCr := numCr + 1;
      }
    }
    assert s[..|s|] == s;
  }

  /** Writes the text with the special characters spelled out, one stretch at a time. */
  method WriteBody(s0: string, m: map<char, string>) returns (out: string)
    requires forall c :: c in s0 && (c == '\n' || c == '\r') ==> c in m
    requires forall c :: c in m ==> IsSpecial(c)
    ensures out == Subst(s0, m['\'' := "''"])
  {
    hide Subst;
    ghost var m' := m['\'' := "''"];
    var s := s0;
    out := "";
    ghost var done := "";
    NothingWritten(m');
    while s != ""
      invariant s0 == done + s
      invariant out == Subst(done, m')
      decreases |s|
    {
      var n := PlainPrefix(s);
      var start := if n < |s| then s[..n + 1] else s;
      var last := start[|start| - 1];
      assert last in s0 by { assert s0[|done| + |start| - 1] == last; }
      Stretch(start, m');
      SubstConcat(done, start, m');
      if last == '\n' || last == '\r' {
        out := out + start[..|start| - 1] + m[last];
      } else if last == '\'' {
        out := out + start + "'";
        assert start + "'" == start[..|start| - 1] + "''";
      } else {
        out := out + start;
      }
      done := done + start;
      s := s[|start|..];
    }
    assert done == s0;
  }

  lemma NothingWritten(m: map<char, string>)
    ensures Subst("", m) == ""
  {
  }

  lemma Stretch(start: string, m: map<char, string>)
    requires start != "" && forall c :: c in m ==> IsSpecial(c)
    requires forall i :: 0 <= i < |start| - 1 ==> !IsSpecial(start[i])
    ensures var last := start[|start| - 1];
      Subst(start, m) == start[..|start| - 1] + (if last in m then m[last] else [last])
  {
    var front, last := start[..|start| - 1], start[|start| - 1];
    assert start == front + [last];
    SubstConcat(front, [last], m);
    SubstPlain(front, m);
    assert Subst([last], m) == if last in m then m[last] else [last];
  }

  /** Writes a text as an SQL expression: evaluating it gives the text back, whatever follows
      (other than a quote), and it has no line break. */
  method Fmt(s: string) returns (out: string)
    ensures forall rest: string :: NoQuoteNext(rest) ==> Eval(out + rest) == Good(s, rest)
    ensures forall rest: string :: NoQuoteNext(rest) && '\0' !in rest ==>
      (Eval(Seen(out + rest)) == Good(s, rest) <==> '\0' !in s)
    ensures OneLine(out)
  {
    hide Eval, Seen, Subst, Wrapped, Fit, Contains, OneLine, Shape;
    var i := PlainPrefix(s);
    if i == |s| {
      out := "'" + s + "'";
      PlainWrapped(s);
      EvalAll(s, map[]);
      return;
    }
    var numNl, numCr := CountBreaks(s);
    var m: map<char, string> := map[];
    if numNl != 0 {
      var token := FindUnusedStr(s, "\\n", "\\012");
      m := m['\n' := token];
      TokenShape(token, 'n', '2');
    }
    if numCr != 0 {
      var token := FindUnusedStr(s, "\\r", "\\015");
      m := m['\r' := token];
      TokenShape(token, 'r', '5');
    }
    FitTokens(s, m);
    out := WriteEscaped(s, m);
    EvalAll(s, m);
  }

  /** Writes the literal inside the calls that restore its line breaks. */
  method WriteEscaped(s: string, m: map<char, string>) returns (out: string)
    requires forall c :: c in s && (c == '\n' || c == '\r') ==> c in m
    requires forall c :: c in m ==> IsSpecial(c)
    ensures out == Wrapped(s, m)
  {
    hide Subst, Quoted, Restoring, IsSpecial;
    out := if '\n' in m then REPLACE else "";
    ghost var before := out;
    if '\r' in m {
      out := out + REPLACE;
    }
    var body := WriteBody(s, m);
    AddQuoted(out, s, m, body);
    out := out + "'" + body + "'";
    if '\r' in m {
      out := WriteEnding(out, before, Quoted(s, m), m['\r'], '\r');
    }
    if '\n' in m {
      ghost var inner := if '\r' in m then Restoring(Quoted(s, m), m['\r'], '\r') else Quoted(s, m);
      assert "" + REPLACE == REPLACE;
      out := WriteEnding(out, "", inner, m['\n'], '\n');
    }
  }

  /** Closes one call. */
  method WriteEnding(out: string, ghost before: string, ghost e: string, token: string, c: char)
    returns (out': string)
    requires out == before + REPLACE + e
    ensures out' == before + Restoring(e, token, c)
  {
    hide Restoring, Ending;
    AddEnding(before, e, token, c);
    out' := out + ",'" + token + "'" + Ending(c);
  }

  lemma AddQuoted(out: string, s: string, m: map<char, string>, body: string)
    requires body == Subst(s, m['\'' := "''"])
    ensures out + "'" + body + "'" == out + Quoted(s, m)
  {
    hide Subst;
  }

  lemma AddEnding(before: string, e: string, token: string, c: char)
    ensures before + REPLACE + e + ",'" + token + "'" + Ending(c) == before + Restoring(e, token, c)
  {
    hide Ending;
    Regroup(REPLACE, e, ",'", token, Ending(c), "");
    var last := e + (",'" + (token + "'" + (Ending(c) + "")));
    assert Restoring(e, token, c) == REPLACE + last;
    assert before + REPLACE + e + ",'" + token + "'" + Ending(c) == before + (REPLACE + last);
  }

  lemma PlainWrapped(s: string)
    requires forall i :: 0 <= i < |s| ==> !IsSpecial(s[i])
    ensures Fit(s, map[]) && Wrapped(s, map[]) == "'" + s + "'"
  {
    SubstPlain(s, map['\'' := "''"]);
  }

  lemma FitTokens(s: string, m: map<char, string>)
    requires forall c :: c in m <==> (c == '\n' || c == '\r') && c in s
    requires '\n' in m ==> Shape(m['\n'], 'n', '2')
    requires '\r' in m ==> Shape(m['\r'], 'r', '5')
    requires forall c :: c in m ==> !Contains(s, m[c])
    ensures Fit(s, m)
  {
  }

  lemma EvalAll(s: string, m: map<char, string>)
    requires Fit(s, m)
    ensures forall rest: string :: NoQuoteNext(rest) ==> Eval(Wrapped(s, m) + rest) == Good(s, rest)
    ensures forall rest: string :: NoQuoteNext(rest) && '\0' !in rest ==>
      (Eval(Seen(Wrapped(s, m) + rest)) == Good(s, rest) <==> '\0' !in s)
    ensures OneLine(Wrapped(s, m))
  {
    hide Eval, Seen, Wrapped, Fit;
    WrappedLacks(s, m, '\n');
    WrappedLacks(s, m, '\r');
    if '\0' !in s {
      WrappedLacks(s, m, '\0');
    }
    forall rest: string | NoQuoteNext(rest)
      ensures Eval(Wrapped(s, m) + rest) == Good(s, rest)
      ensures '\0' !in rest ==> (Eval(Seen(Wrapped(s, m) + rest)) == Good(s, rest) <==> '\0' !in s)
    {
      EvalWrapped(s, m, rest);
      SeenDecides(Wrapped(s, m), s, rest);
    }
  }
}
