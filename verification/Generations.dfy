/** Generation ids: UUIDs of version 7 (section 5.7 of RFC 9562) made from a clock that runs
    backwards (`bottomless/src/uuid_utils.rs`, `bottomless/src/replicator.rs`). */
module Generations {
  import opened Basics
  import opened PageFile
  import Names = ObjectNames

  /** Seconds and nanoseconds since the Unix epoch. */
  datatype Timestamp = Timestamp(seconds: nat, nanos: nat)

  const LAST_SECOND := 253_370_761_200

  ghost predicate IsTime(t: Timestamp) {
    t.seconds <= LAST_SECOND && t.nanos < 1_000_000_000
  }

  /** The same instants counted back from the last second. */
  function Mirror(t: Timestamp): Timestamp
    requires IsTime(t)
  {
    Timestamp(LAST_SECOND - t.seconds, 999_999_999 - t.nanos)
  }

  function Millis(t: Timestamp): nat {
    t.seconds * 1000 + t.nanos / 1_000_000
  }

  /** The id: 48 bits of milliseconds, then random bits around a version and a variant. */
  function EncodeUnixTimestampMillis(millis: nat, random: Bytes): (uuid: Bytes)
    requires |random| == 10
    ensures |uuid| == 16
    ensures uuid[6] / 16 == 7 && uuid[8] / 64 == 2
  {
    var high := millis / 0x1_0000 % 0x1_0000_0000;
    var low := millis % 0x1_0000;
    [high / 0x100_0000, high / 0x1_0000 % 0x100, high / 0x100 % 0x100, high % 0x100, low / 0x100, low % 0x100,
     0x70 + random[0] % 0x10, random[1], 0x80 + random[2] % 0x40] + random[3..]
  }

  function DecodeMillis(uuid: Bytes): nat
    requires |uuid| == 16
  {
    Digits256(uuid[0], uuid[1], uuid[2], uuid[3], uuid[4], uuid[5])
  }

  function Digits256(a: int, b: int, c: int, d: int, e: int, f: int): int {
    ((((a * 0x100 + b) * 0x100 + c) * 0x100 + d) * 0x100 + e) * 0x100 + f
  }

  function DecodeUnixTimestamp(uuid: Bytes): Timestamp
    requires |uuid| == 16
  {
    var millis := DecodeMillis(uuid);
    Timestamp(millis / 1000, millis % 1000 * 1_000_000)
  }

  function GenerationFromTimestamp(t: Timestamp, random: Bytes): (uuid: Bytes)
    requires IsTime(t) && |random| == 10
    ensures |uuid| == 16
  {
    EncodeUnixTimestampMillis(Millis(Mirror(t)), random)
  }

  function GenerationToTimestamp(uuid: Bytes): Timestamp
    requires |uuid| == 16 && IsTime(DecodeUnixTimestamp(uuid))
  {
    Mirror(DecodeUnixTimestamp(uuid))
  }

  lemma DecodeEncodeMillis(millis: nat, random: Bytes)
    requires millis < 0x1_0000_0000_0000 && |random| == 10
    ensures DecodeMillis(EncodeUnixTimestampMillis(millis, random)) == millis
  {
    hide Digits256;
    var high, low := millis / 0x1_0000, millis % 0x1_0000;
    assert high % 0x1_0000_0000 == high;
    SixDigits(high, low);
  }

  lemma SixDigits(high: nat, low: nat)
    requires low < 0x1_0000
    ensures Digits256(high / 0x100_0000, high / 0x1_0000 % 0x100, high / 0x100 % 0x100, high % 0x100,
                      low / 0x100, low % 0x100) == high * 0x1_0000 + low
  {
    FourBytes(high);
  }

  lemma FourBytes(n: nat)
    ensures ((n / 0x100_0000 * 0x100 + n / 0x1_0000 % 0x100) * 0x100 + n / 0x100 % 0x100) * 0x100 + n % 0x100 == n
  {
    assert n / 0x100_0000 == n / 0x1_0000 / 0x100;
    assert n / 0x1_0000 == n / 0x100 / 0x100;
  }

  lemma MirrorFits(t: Timestamp)
    requires IsTime(t)
    ensures Millis(Mirror(t)) < 0x1_0000_0000_0000
  {
  }

  /** A generation id tells the second and the millisecond it was made in. */
  lemma GenerationTellsTime(t: Timestamp, random: Bytes)
    requires IsTime(t) && |random| == 10
    ensures var uuid := GenerationFromTimestamp(t, random);
      && IsTime(DecodeUnixTimestamp(uuid))
      && GenerationToTimestamp(uuid).seconds == t.seconds
      && GenerationToTimestamp(uuid).nanos / 1_000_000 == t.nanos / 1_000_000
      && t.nanos <= GenerationToTimestamp(uuid).nanos
  {
    MirrorFits(t);
    DecodeEncodeMillis(Millis(Mirror(t)), random);
    MirrorMillis(t);
  }

  lemma MirrorMillis(t: Timestamp)
    requires IsTime(t)
    ensures Millis(Mirror(t)) == 253_370_761_200_999 - Millis(t)
    ensures Millis(Mirror(t)) / 1000 == LAST_SECOND - t.seconds
    ensures Millis(Mirror(t)) % 1000 == 999 - t.nanos / 1_000_000
  {
    var q := t.nanos / 1_000_000;
    assert (999_999_999 - t.nanos) / 1_000_000 == 999 - q;
  }

  /** Ids of the same millisecond differ unless their 74 random bits are the same. */
  lemma RandomBitsDecide(millis: nat, x: Bytes, y: Bytes)
    requires |x| == 10 && |y| == 10
    ensures EncodeUnixTimestampMillis(millis, x) == EncodeUnixTimestampMillis(millis, y) <==>
      x[0] % 0x10 == y[0] % 0x10 && x[1] == y[1] && x[2] % 0x40 == y[2] % 0x40 && x[3..] == y[3..]
  {
    var a, b := EncodeUnixTimestampMillis(millis, x), EncodeUnixTimestampMillis(millis, y);
    assert a[9..] == x[3..] && b[9..] == y[3..];
    assert a[6] == 0x70 + x[0] % 0x10 && b[6] == 0x70 + y[0] % 0x10;
    assert a[7] == x[1] && b[7] == y[1] && a[8] == 0x80 + x[2] % 0x40 && b[8] == 0x80 + y[2] % 0x40;
  }

  // ---------------------------------------------------------------- names

  function HexByte(b: Byte): (s: string)
    ensures |s| == 2
  {
    [HexDigit(b / 16), HexDigit(b % 16)]
  }

  /** The text of an id from byte `i` on. */
  function TextFrom(uuid: Bytes, i: nat): string
    requires |uuid| == 16 && i <= 16
    decreases 16 - i
  {
    if i == 16 then ""
    else
      HexByte(uuid[i]) + Dash(i) + TextFrom(uuid, i + 1)
  }

  function Dash(i: nat): string {
    if i in {3, 5, 7, 9} then "-" else ""
  }

  /** The place of the first digit of byte `i`: dashes stand before bytes 4, 6, 8 and 10. */
  function PlaceOf(i: nat): nat {
    2 * i + (if i >= 4 then 1 else 0) + (if i >= 6 then 1 else 0)
    + (if i >= 8 then 1 else 0) + (if i >= 10 then 1 else 0)
  }

  lemma PlaceStep(k: nat)
    requires k < 16
    ensures PlaceOf(k + 1) == PlaceOf(k) + 2 + |Dash(k)| && PlaceOf(k + 1) <= PlaceOf(16) == 36
  {
  }

  /** The text of an id has 36 characters: the digits of its bytes, and four dashes. */
  lemma TextLayout(uuid: Bytes, i: nat)
    requires |uuid| == 16 && i < 16
    ensures var text := TextFrom(uuid, 0);
      && |text| == 36 && PlaceOf(i) + 2 <= 36
      && text[PlaceOf(i)] == "0123456789abcdef"[uuid[i] / 16]
      && text[PlaceOf(i) + 1] == "0123456789abcdef"[uuid[i] % 16]
      && text[8] == '-' && text[13] == '-' && text[18] == '-' && text[23] == '-'
  {
    hide TextFrom, HexByte;
    TextPart(uuid, 0, i);
    PlaceStep(i);
    FourDashes(uuid);
    HexByteIs(uuid[i]);
    var text, at := TextFrom(uuid, 0), PlaceOf(i);
    assert text[at..at + 2][0] == text[at] && text[at..at + 2][1] == text[at + 1];
  }

  lemma HexByteIs(b: Byte)
    ensures HexByte(b)[0] == "0123456789abcdef"[b / 16] && HexByte(b)[1] == "0123456789abcdef"[b % 16]
  {
    hide HexDigit;
    HexDigitIs(b / 16);
    HexDigitIs(b % 16);
  }

  lemma FourDashes(uuid: Bytes)
    requires |uuid| == 16
    ensures var text := TextFrom(uuid, 0);
      |text| == 36 && text[8] == '-' && text[13] == '-' && text[18] == '-' && text[23] == '-'
  {
    hide TextFrom, HexByte;
    DashAt(uuid, 3);
    DashAt(uuid, 5);
    DashAt(uuid, 7);
    DashAt(uuid, 9);
  }

  lemma DashAt(uuid: Bytes, i: nat)
    requires |uuid| == 16 && i in {3, 5, 7, 9}
    ensures |TextFrom(uuid, 0)| == 36 && PlaceOf(i) + 2 < 36 && TextFrom(uuid, 0)[PlaceOf(i) + 2] == '-'
  {
    hide TextFrom, HexByte;
    TextPart(uuid, 0, i);
  }

  lemma {:induction false} TextPart(uuid: Bytes, k: nat, i: nat)
    requires |uuid| == 16 && k <= i < 16
    ensures var text, at := TextFrom(uuid, k), PlaceOf(i) - PlaceOf(k);
      && |text| == 36 - PlaceOf(k) && at >= 0 && at + 2 + |Dash(i)| <= |text|
      && text[at..at + 2] == HexByte(uuid[i])
      && text[at + 2..at + 2 + |Dash(i)|] == Dash(i)
    decreases i - k
  {
    hide HexByte, PlaceOf, Dash, TextFrom;
    var digits, dash, rest := HexByte(uuid[k]), Dash(k), TextFrom(uuid, k + 1);
    TextStep(uuid, k);
    TextLength(uuid, k + 1);
    PlaceStep(k);
    if i == k {
      Parts(digits, dash, rest, 0, 0);
    } else {
      TextPart(uuid, k + 1, i);
      Parts(digits, dash, rest, PlaceOf(i) - PlaceOf(k + 1), |Dash(i)|);
    }
  }

  lemma TextStep(uuid: Bytes, k: nat)
    requires |uuid| == 16 && k < 16
    ensures TextFrom(uuid, k) == HexByte(uuid[k]) + Dash(k) + TextFrom(uuid, k + 1)
  {
  }

  lemma Parts(a: string, b: string, c: string, at: nat, n: nat)
    requires |a| == 2
    ensures (a + b + c)[0..2] == a && (a + b + c)[2..2 + |b|] == b
    ensures var k := 2 + |b|;
      at + 2 + n <= |c| ==>
        && (a + b + c)[k + at..k + at + 2] == c[at..at + 2]
        && (a + b + c)[k + at + 2..k + at + 2 + n] == c[at + 2..at + 2 + n]
  {
  }

  lemma {:induction false} TextLength(uuid: Bytes, k: nat)
    requires |uuid| == 16 && k <= 16
    ensures |TextFrom(uuid, k)| == 36 - PlaceOf(k)
    decreases 16 - k
  {
    hide HexByte;
    if k < 16 {
      TextLength(uuid, k + 1);
      PlaceStep(k);
    }
  }

  /** The bytes from `i` on are smaller in lexicographic order. */
  ghost predicate Smaller(a: Bytes, b: Bytes, i: nat)
    requires |a| == |b| == 16 && i <= 16
    decreases 16 - i
  {
    i < 16 && (a[i] < b[i] || (a[i] == b[i] && Smaller(a, b, i + 1)))
  }

  lemma {:induction false} TextOrder(a: Bytes, b: Bytes, i: nat, x: string, y: string)
    requires |a| == |b| == 16 && i <= 16 && Smaller(a, b, i)
    ensures Names.Before(TextFrom(a, i) + x, TextFrom(b, i) + y)
    decreases 16 - i
  {
    hide Names.Before, HexByte, Dash;
    var s, t := Dash(i) + TextFrom(a, i + 1), Dash(i) + TextFrom(b, i + 1);
    Split(HexByte(a[i]), Dash(i), TextFrom(a, i + 1), x);
    Split(HexByte(b[i]), Dash(i), TextFrom(b, i + 1), y);
    if a[i] < b[i] {
      HexOrder(a[i], b[i]);
      HeadOrder(HexByte(a[i]), HexByte(b[i]), s + x, t + y);
    } else {
      TextOrder(a, b, i + 1, x, y);
      PrefixOrder(Dash(i), TextFrom(a, i + 1) + x, TextFrom(b, i + 1) + y);
      PrefixOrder(HexByte(a[i]), s + x, t + y);
    }
  }

  lemma Split(p: string, d: string, s: string, x: string)
    ensures p + d + s + x == p + (d + s + x)
    ensures d + s + x == d + (s + x)
  {
  }

  lemma HeadOrder(p: string, q: string, s: string, t: string)
    requires |p| == |q| && Names.Before(p, q)
    ensures Names.Before(p + s, q + t)
  {
    Names.BeforeInside([], p, q, s, t);
    assert [] + p + s == p + s && [] + q + t == q + t;
  }

  lemma HexOrder(a: Byte, b: Byte)
    requires a < b
    ensures Names.Before(HexByte(a), HexByte(b))
  {
    assert HexByte(a)[1..] == [HexDigit(a % 16)] && HexByte(b)[1..] == [HexDigit(b % 16)];
    DigitOrder(a / 16, b / 16);
    DigitOrder(a % 16, b % 16);
  }

  lemma DigitOrder(m: nat, n: nat)
    requires m < 16 && n < 16
    ensures m < n ==> HexDigit(m) < HexDigit(n)
    ensures HexDigit(m) == HexDigit(n) <==> m == n
  {
  }

  lemma {:induction false} PrefixOrder(p: string, s: string, t: string)
    requires Names.Before(s, t)
    ensures Names.Before(p + s, p + t)
  {
    if p == [] {
      assert p + s == s && p + t == t;
    } else {
      PrefixOrder(p[1..], s, t);
      assert (p + s)[1..] == p[1..] + s && (p + t)[1..] == p[1..] + t;
    }
  }

  lemma MillisOrder(a: Bytes, b: Bytes)
    requires |a| == |b| == 16 && DecodeMillis(a) < DecodeMillis(b)
    ensures Smaller(a, b, 0)
  {
    assert Smaller(a, b, 5) <== a[5] < b[5];
    assert Smaller(a, b, 4) <== a[4] < b[4] || (a[4] == b[4] && a[5] < b[5]);
    assert Smaller(a, b, 3) <== a[3] < b[3] || (a[3] == b[3] && Smaller(a, b, 4));
    assert Smaller(a, b, 2) <== a[2] < b[2] || (a[2] == b[2] && Smaller(a, b, 3));
    assert Smaller(a, b, 1) <== a[1] < b[1] || (a[1] == b[1] && Smaller(a, b, 2));
  }

  /** Object stores list the generations of a database newest first: a later millisecond gives
      a smaller name, whatever the random bytes and whatever follows in the name. */
  lemma NewestFirst(db: string, t: Timestamp, random: Bytes, x: string, t': Timestamp, random': Bytes, x': string)
    requires IsTime(t) && IsTime(t') && |random| == |random'| == 10
    requires Millis(t) < Millis(t')
    ensures Names.Before(db + "-" + TextFrom(GenerationFromTimestamp(t', random'), 0) + x',
                         db + "-" + TextFrom(GenerationFromTimestamp(t, random), 0) + x)
  {
    hide Names.Before, TextFrom, EncodeUnixTimestampMillis, DecodeMillis;
    var a, b := GenerationFromTimestamp(t', random'), GenerationFromTimestamp(t, random);
    MirrorMillis(t);
    MirrorMillis(t');
    MirrorFits(t);
    MirrorFits(t');
    DecodeEncodeMillis(Millis(Mirror(t)), random);
    DecodeEncodeMillis(Millis(Mirror(t')), random');
    MillisOrder(a, b);
    TextOrder(a, b, 0, x', x);
    PrefixOrder(db + "-", TextFrom(a, 0) + x', TextFrom(b, 0) + x);
    assert db + "-" + TextFrom(a, 0) + x' == (db + "-") + (TextFrom(a, 0) + x');
    assert db + "-" + TextFrom(b, 0) + x == (db + "-") + (TextFrom(b, 0) + x);
  }
}
