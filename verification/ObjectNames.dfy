/** Names of backup objects: how they are printed, parsed and ordered
    (`bottomless/src/backup.rs`, `bottomless/src/replicator.rs`). */
module ObjectNames {
  import opened Basics

  datatype Compression = Raw | Gzip

  // ---------------------------------------------------------------- printing

  function Digit(d: nat): char
    requires d < 10
  {
    '0' + d as char
  }

  /** The last `k` decimal digits of `n`, with leading zeros. */
  function Pad(n: nat, k: nat): (s: string)
    ensures |s| == k
  {
    if k == 0 then "" else Pad(n / 10, k - 1) + [Digit(n % 10)]
  }

  /** `n` in decimal. */
  function Decimal(n: nat): string {
    if n < 10 then [Digit(n)] else Decimal(n / 10) + [Digit(n % 10)]
  }

  function Extension(kind: Compression): string {
    match kind case Raw => "raw" case Gzip => "gz"
  }

  function Suffix(first: nat, last: nat, timestamp: nat, kind: Compression): string {
    Pad(first, 12) + "-" + Pad(last, 12) + "-" + Decimal(timestamp) + "." + Extension(kind)
  }

  /** The name of the object that holds the frames `first..=last`. */
  function Key(dir: string, first: nat, last: nat, timestamp: nat, kind: Compression): string {
    dir + "/" + Suffix(first, last, timestamp, kind)
  }

  // ---------------------------------------------------------------- parsing

  function RFind(s: string, c: char): Option<nat> {
    if s == [] then None
    else if s[|s| - 1] == c then Some(|s| - 1)
    else RFind(s[..|s| - 1], c)
  }

  lemma {:induction false} NoneToFind(s: string, c: char)
    requires c !in s
    ensures RFind(s, c) == None
  {
    if s != [] {
      assert s[|s| - 1] in s;
      NoneToFind(s[..|s| - 1], c);
    }
  }

  lemma {:induction false} RFindIndex(s: string, c: char)
    ensures RFind(s, c).Some? ==> RFind(s, c).value < |s| && s[RFind(s, c).value] == c
  {
    if s != [] {
      RFindIndex(s[..|s| - 1], c);
    }
  }

  function DigitsValue(s: string): Option<nat> {
    if s == [] then Some(0)
    else if '0' <= s[|s| - 1] <= '9' && DigitsValue(s[..|s| - 1]).Some? then
      Some(10 * DigitsValue(s[..|s| - 1]).value + (s[|s| - 1] - '0') as nat)
    else None
  }

  /** Unsigned integers as the standard library parses them: an optional plus sign, then at
      least one digit, and the value in range. */
  function ParseUnsigned(s: string, range: nat): Option<nat> {
    var digits := if s != [] && s[0] == '+' then s[1..] else s;
    if digits == [] then None
    else
      match DigitsValue(digits)
      case None => None
      case Some(n) => if n < range then Some(n) else None
  }

  /** Exactly the texts of digits, perhaps after a plus sign, with a value in range are parsed. */
  lemma ParsesExactly(s: string, n: nat, range: nat)
    ensures ParseUnsigned(s, range) == Some(n) <==>
      n < range && exists digits :: (s == digits || s == "+" + digits) && IsNumeral(digits, n)
  {
    hide DigitsValue;
    var digits := if s != [] && s[0] == '+' then s[1..] else s;
    OnlyDigits(s);
    OnlyDigits(digits);
    assert s == digits || s == "+" + digits;
    if n < range && exists d :: (s == d || s == "+" + d) && IsNumeral(d, n) {
      var d :| (s == d || s == "+" + d) && IsNumeral(d, n);
      OnlyDigits(d);
      assert d[0] != '+';
      assert d == digits;
    }
    if ParseUnsigned(s, range) == Some(n) {
      assert IsNumeral(digits, n);
    }
  }

  /** At least one digit, with the given value. */
  predicate IsNumeral(digits: string, n: nat) {
    digits != [] && DigitsValue(digits) == Some(n)
  }

  function ParseCompression(s: string): Option<Compression> {
    if s == "gz" || s == "gzip" then Some(Gzip)
    else if s == "raw" || s == "" then Some(Raw)
    else None
  }

  datatype Parsed = NotARange | Range(first: nat, last: nat, timestamp: nat, kind: Compression)

  predicate IsDigits(s: string) {
    forall i :: 0 <= i < |s| ==> '0' <= s[i] <= '9'
  }

  lemma {:induction false} OnlyDigits(s: string)
    ensures DigitsValue(s).Some? ==> IsDigits(s)
  {
    if s != [] {
      OnlyDigits(s[..|s| - 1]);
    }
  }

  lemma DotDoesNotParse(s: string, range: nat)
    ensures '.' in s ==> ParseUnsigned(s, range).None?
  {
    var digits := if s != [] && s[0] == '+' then s[1..] else s;
    OnlyDigits(digits);
    assert s != [] && s[0] == '+' ==> s == ['+'] + digits;
  }

  /** The slice between the last dash and the last dot is never taken backwards: a dot before
      the last dash would lie in one of the frame numbers, which then do not parse. */
  lemma DotIsBehind(suffix: string, firstEnd: nat, lastEnd: nat, timestampEnd: nat)
    requires firstEnd < lastEnd < |suffix| && timestampEnd < |suffix|
    requires suffix[firstEnd] == '-' && suffix[lastEnd] == '-' && suffix[timestampEnd] == '.'
    requires ParseUnsigned(suffix[..firstEnd], U32_RANGE).Some?
    requires ParseUnsigned(suffix[firstEnd + 1..lastEnd], U32_RANGE).Some?
    ensures lastEnd < timestampEnd
  {
    DotDoesNotParse(suffix[..firstEnd], U32_RANGE);
    DotDoesNotParse(suffix[firstEnd + 1..lastEnd], U32_RANGE);
    hide ParseUnsigned;
    InSlice(suffix, 0, firstEnd, timestampEnd);
    InSlice(suffix, firstEnd + 1, lastEnd, timestampEnd);
  }

  lemma InSlice(s: string, a: nat, b: nat, i: nat)
    requires a <= b <= |s| && i < |s|
    ensures a <= i < b ==> s[i] in s[a..b]
    ensures a == 0 ==> s[a..b] == s[..b]
  {
    if a <= i < b {
      assert s[a..b][i - a] == s[i];
    }
  }

  function ParseFields(suffix: string, firstEnd: nat, lastEnd: nat, timestampEnd: nat): Parsed
    requires firstEnd < lastEnd < |suffix| && timestampEnd < |suffix|
    requires suffix[firstEnd] == '-' && suffix[lastEnd] == '-' && suffix[timestampEnd] == '.'
  {
    var first := ParseUnsigned(suffix[..firstEnd], U32_RANGE);
    var last := ParseUnsigned(suffix[firstEnd + 1..lastEnd], U32_RANGE);
    if first.None? || last.None? then NotARange
    else
      DotIsBehind(suffix, firstEnd, lastEnd, timestampEnd);
      var timestamp := ParseUnsigned(suffix[lastEnd + 1..timestampEnd], U64_RANGE);
      var kind := ParseCompression(suffix[timestampEnd + 1..]);
      if timestamp.None? || kind.None? then NotARange
      else Range(first.value, last.value, timestamp.value, kind.value)
  }

  function ParseSuffix(suffix: string): Parsed {
    RFindIndex(suffix, '-');
    match RFind(suffix, '-')
    case None => NotARange
    case Some(lastEnd) =>
      RFindIndex(suffix[..lastEnd], '-');
      match RFind(suffix[..lastEnd], '-')
      case None => NotARange
      case Some(firstEnd) =>
        RFindIndex(suffix, '.');
        match RFind(suffix, '.')
        case None => NotARange
        case Some(timestampEnd) => ParseFields(suffix, firstEnd, lastEnd, timestampEnd)
  }

  function ParseFrameRange(key: string): Parsed {
    RFindIndex(key, '/');
    match RFind(key, '/')
    case None => NotARange
    case Some(i) => ParseSuffix(key[i + 1..])
  }

  // ---------------------------------------------------------------- parsing undoes printing

  lemma {:induction false} RFindLast(a: string, c: char, b: string)
    requires c !in b
    ensures RFind(a + [c] + b, c) == Some(|a|)
  {
    var s := a + [c] + b;
    if b != [] {
      assert b[|b| - 1] in b;
      assert s[..|s| - 1] == a + [c] + b[..|b| - 1];
      RFindLast(a, c, b[..|b| - 1]);
    }
  }

  lemma {:induction false} PadDigits(n: nat, k: nat)
    ensures IsDigits(Pad(n, k))
    ensures n < Pow10(k) ==> DigitsValue(Pad(n, k)) == Some(n)
  {
    if k > 0 {
      PadDigits(n / 10, k - 1);
    }
  }

  function Pow10(k: nat): nat {
    if k == 0 then 1 else 10 * Pow10(k - 1)
  }

  lemma {:induction false} DecimalDigits(n: nat)
    ensures IsDigits(Decimal(n)) && Decimal(n) != []
    ensures DigitsValue(Decimal(n)) == Some(n)
  {
    if n < 10 {
      assert DigitsValue(Decimal(n)[..0]) == Some(0);
    } else {
      DecimalDigits(n / 10);
      assert Decimal(n)[..|Decimal(n)| - 1] == Decimal(n / 10);
    }
  }

  lemma ParseDigits(s: string, n: nat, range: nat)
    requires s != [] && IsDigits(s) && DigitsValue(s) == Some(n) && n < range
    ensures ParseUnsigned(s, range) == Some(n)
  {
  }

  lemma TwelveDigits()
    ensures Pow10(12) == 1_000_000_000_000
  {
    assert Pow10(4) == 10_000;
    assert Pow10(8) == 10_000 * Pow10(4);
    assert Pow10(12) == 10_000 * Pow10(8);
  }

  lemma PadParses(n: nat)
    requires n < U32_RANGE
    ensures ParseUnsigned(Pad(n, 12), U32_RANGE) == Some(n) && IsDigits(Pad(n, 12))
  {
    TwelveDigits();
    PadDigits(n, 12);
    ParseDigits(Pad(n, 12), n, U32_RANGE);
  }

  lemma ExtensionParses(kind: Compression)
    ensures ParseCompression(Extension(kind)) == Some(kind)
    ensures '/' !in Extension(kind) && '-' !in Extension(kind) && '.' !in Extension(kind)
  {
  }

  lemma DigitsHaveNoDelimiter(s: string)
    requires IsDigits(s)
    ensures '/' !in s && '-' !in s && '.' !in s
  {
  }

  lemma SuffixParses(first: nat, last: nat, timestamp: nat, kind: Compression)
    requires first < U32_RANGE && last < U32_RANGE && timestamp < U64_RANGE
    ensures ParseSuffix(Suffix(first, last, timestamp, kind)) == Range(first, last, timestamp, kind)
    ensures '/' !in Suffix(first, last, timestamp, kind)
  {
    hide Pad, Decimal, ParseUnsigned, ParseCompression, Extension, RFind;
    var a, b, t, e := Pad(first, 12), Pad(last, 12), Decimal(timestamp), Extension(kind);
    var s := Suffix(first, last, timestamp, kind);
    PadParses(first);
    PadParses(last);
    DecimalDigits(timestamp);
    ParseDigits(t, timestamp, U64_RANGE);
    ExtensionParses(kind);
    DigitsHaveNoDelimiter(a);
    DigitsHaveNoDelimiter(b);
    DigitsHaveNoDelimiter(t);
    assert s == (a + "-" + b) + ['-'] + (t + "." + e);
    RFindLast(a + "-" + b, '-', t + "." + e);
    assert s[..25] == a + ['-'] + b;
    RFindLast(a, '-', b);
    assert s == (a + "-" + b + "-" + t) + ['.'] + e;
    RFindLast(a + "-" + b + "-" + t, '.', e);
    SuffixSlices(a, b, t, e);
  }

  lemma SuffixSlices(a: string, b: string, t: string, e: string)
    requires |a| == 12 && |b| == 12
    ensures var s := a + "-" + b + "-" + t + "." + e;
      && s[..12] == a && s[13..25] == b && s[26..26 + |t|] == t && s[26 + |t| + 1..] == e
  {
  }

  /** Object names parse back to their fields, for every directory name. */
  lemma KeyParses(dir: string, first: nat, last: nat, timestamp: nat, kind: Compression)
    requires first < U32_RANGE && last < U32_RANGE && timestamp < U64_RANGE
    ensures ParseFrameRange(Key(dir, first, last, timestamp, kind)) == Range(first, last, timestamp, kind)
  {
    hide Suffix, ParseSuffix, RFind;
    var s := Suffix(first, last, timestamp, kind);
    SuffixParses(first, last, timestamp, kind);
    assert Key(dir, first, last, timestamp, kind) == dir + ['/'] + s;
    RFindLast(dir, '/', s);
    assert (dir + ['/'] + s)[|dir| + 1..] == s;
  }

  // ---------------------------------------------------------------- order

  /** The order in which object stores list names. */
  predicate Before(a: string, b: string) {
    if b == [] then false
    else if a == [] then true
    else a[0] < b[0] || (a[0] == b[0] && Before(a[1..], b[1..]))
  }

  lemma {:induction false} BeforeIsStrict(a: string, b: string)
    ensures !(Before(a, b) && Before(b, a)) && !Before(a, a)
  {
    if a != [] {
      BeforeIsStrict(a[1..], a[1..]);
      if b != [] {
        BeforeIsStrict(a[1..], b[1..]);
      }
    }
  }

  lemma {:induction false} BeforeInside(p: string, a: string, b: string, x: string, y: string)
    requires |a| == |b| && Before(a, b)
    ensures Before(p + a + x, p + b + y)
  {
    if p == [] {
      assert p + a + x == a + x && p + b + y == b + y;
      if a[0] == b[0] {
        BeforeInside([], a[1..], b[1..], x, y);
        assert (a + x)[1..] == [] + a[1..] + x && (b + y)[1..] == [] + b[1..] + y;
      }
    } else {
      BeforeInside(p[1..], a, b, x, y);
      assert (p + a + x)[1..] == p[1..] + a + x && (p + b + y)[1..] == p[1..] + b + y;
    }
  }

  lemma {:induction false} PadOrder(n: nat, m: nat, k: nat)
    requires n < m < Pow10(k)
    ensures Before(Pad(n, k), Pad(m, k))
  {
    var a, b := Pad(n / 10, k - 1), Pad(m / 10, k - 1);
    var x, y := [Digit(n % 10)], [Digit(m % 10)];
    if n / 10 < m / 10 {
      PadOrder(n / 10, m / 10, k - 1);
      BeforeInside([], a, b, x, y);
      assert [] + a + x == a + x && [] + b + y == b + y;
    } else {
      assert n / 10 == m / 10;
      LastDigitOrder(a, n % 10, m % 10);
    }
  }

  lemma LastDigitOrder(a: string, x: nat, y: nat)
    requires x < y < 10
    ensures Before(a + [Digit(x)], a + [Digit(y)])
  {
    assert Before([Digit(x)], [Digit(y)]);
    BeforeInside(a, [Digit(x)], [Digit(y)], [], []);
    assert a + [Digit(x)] + [] == a + [Digit(x)] && a + [Digit(y)] + [] == a + [Digit(y)];
  }

  /** Names of one directory are listed in the order of their first frames, for all `u32`. */
  lemma KeysInFrameOrder(dir: string, first: nat, last: nat, ts: nat, kind: Compression,
                         first': nat, last': nat, ts': nat, kind': Compression)
    requires first < U32_RANGE && first' < U32_RANGE && first != first'
    ensures Before(Key(dir, first, last, ts, kind), Key(dir, first', last', ts', kind')) <==> first < first'
  {
    if first < first' {
      KeyOrder(dir, first, last, ts, kind, first', last', ts', kind');
    } else {
      KeyOrder(dir, first', last', ts', kind', first, last, ts, kind);
      BeforeIsStrict(Key(dir, first, last, ts, kind), Key(dir, first', last', ts', kind'));
    }
  }

  lemma KeyOrder(dir: string, first: nat, last: nat, ts: nat, kind: Compression,
                 first': nat, last': nat, ts': nat, kind': Compression)
    requires first < first' < U32_RANGE
    ensures Before(Key(dir, first, last, ts, kind), Key(dir, first', last', ts', kind'))
  {
    hide Pad, Before, Decimal, Extension;
    TwelveDigits();
    PadOrder(first, first', 12);
    var x := "-" + Pad(last, 12) + "-" + Decimal(ts) + "." + Extension(kind);
    var y := "-" + Pad(last', 12) + "-" + Decimal(ts') + "." + Extension(kind');
    BeforeInside(dir + "/", Pad(first, 12), Pad(first', 12), x, y);
    assert Key(dir, first, last, ts, kind) == (dir + "/") + Pad(first, 12) + x;
    assert Key(dir, first', last', ts', kind') == (dir + "/") + Pad(first', 12) + y;
  }

  /** The parts of a name: the directory, two frame numbers of twelve digits, the timestamp and
      the kind of compression. */
  lemma KeyLayout(dir: string, first: nat, last: nat, timestamp: nat, kind: Compression)
    requires first < 1_000_000_000_000 && last < 1_000_000_000_000
    ensures var key, n := Key(dir, first, last, timestamp, kind), |dir| + 1;
      && |key| >= n + 26 && key[..n] == dir + "/"
      && IsDigits(key[n..n + 12]) && DigitsValue(key[n..n + 12]) == Some(first) && key[n + 12] == '-'
      && IsDigits(key[n + 13..n + 25]) && DigitsValue(key[n + 13..n + 25]) == Some(last) && key[n + 25] == '-'
      && key[n + 26..] == Decimal(timestamp) + if kind.Gzip? then ".gz" else ".raw"
  {
    hide Pad, Decimal, DigitsValue, Key, IsDigits, Pow10;
    TwelveDigits();
    PadDigits(first, 12);
    PadDigits(last, 12);
    KeyParts(dir, first, last, timestamp, kind);
    FiveParts(dir + "/", Pad(first, 12), "-", Pad(last, 12), "-", KeyEnd(timestamp, kind));
    EndLayout(timestamp, kind);
    var key, n := Key(dir, first, last, timestamp, kind), |dir| + 1;
    assert key[n + 12..n + 13][0] == key[n + 12] && key[n + 25..n + 26][0] == key[n + 25];
  }

  function KeyEnd(timestamp: nat, kind: Compression): string {
    Decimal(timestamp) + "." + Extension(kind)
  }

  lemma EndLayout(timestamp: nat, kind: Compression)
    ensures KeyEnd(timestamp, kind) == Decimal(timestamp) + if kind.Gzip? then ".gz" else ".raw"
  {
    hide Decimal;
  }

  lemma KeyParts(dir: string, first: nat, last: nat, timestamp: nat, kind: Compression)
    ensures Key(dir, first, last, timestamp, kind) ==
      (dir + "/") + (Pad(first, 12) + ("-" + (Pad(last, 12) + ("-" + KeyEnd(timestamp, kind)))))
  {
    hide Pad, Decimal, Extension;
    RegroupKey(dir + "/", Pad(first, 12), Pad(last, 12), Decimal(timestamp), Extension(kind));
  }

  lemma RegroupKey(d: string, a: string, b: string, t: string, e: string)
    ensures d + (a + "-" + b + "-" + t + "." + e) == d + (a + ("-" + (b + ("-" + (t + "." + e)))))
  {
  }

  lemma FiveParts(d: string, a: string, x: string, b: string, y: string, c: string)
    ensures var key := d + (a + (x + (b + (y + c)))); var i := |d| + |a|; var j := i + |x|; var k := j + |b|;
      && key[..|d|] == d && key[|d|..i] == a && key[i..j] == x && key[j..k] == b && key[k..k + |y|] == y
      && key[k + |y|..] == c
  {
  }
}
