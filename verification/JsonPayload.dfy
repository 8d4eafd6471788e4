/** The streaming JSON builder (`sqld/src/http/result_builder.rs`). */
module JsonPayload {
  import opened Basics
  import opened Programs
  import opened Execution
  import opened Json

  // ---------------------------------------------------------------- column values

  /** How the serializer writes floating-point numbers and the bytes of blobs. */
  datatype Serde = Serde(number: real -> string, base64: seq<nat> -> string)

  /** Finite floating-point numbers are written as JSON numbers. */
  ghost predicate IsSerde(f: Serde) {
    forall x :: IsNumber(f.number(x))
  }

  function Scalar(v: Value, f: Serde): Json {
    match v
    case Null => Json.Null
    case Integer(i) => Number(IntegerText(i))
    case Real(x) => Number(f.number(x))
    case NotFinite => Json.Null
    case Text(s) => String(s)
    case Blob(bytes) => Object([Member("base64", String(f.base64(bytes)))])
  }

  lemma ScalarSound(v: Value, f: Serde)
    requires IsSerde(f)
    ensures Sound(Scalar(v, f))
  {
    if v.Integer? {
      IntegerIsNumber(v.i);
    }
  }

  /** How a client reads the texts of floating-point numbers and of blobs. */
  datatype Client = Client(number: string -> Option<real>, base64: string -> Option<seq<nat>>)

  /** The client reads what the serializer writes; a floating-point number is not written as an
      integer. */
  ghost predicate Understands(client: Client, f: Serde) {
    && (forall x :: NumberValue(f.number(x)).None? && client.number(f.number(x)) == Some(x))
    && (forall b :: client.base64(f.base64(b)) == Some(b))
  }

  /** The column value that a JSON value stands for. */
  function Decoded(j: Json, client: Client): Option<Value> {
    match j
    case Null => Some(Value.Null)
    case Number(t) =>
      if NumberValue(t).Some? then Some(Integer(NumberValue(t).value))
      else if client.number(t).Some? then Some(Real(client.number(t).value))
      else None
    case String(s) => Some(Text(s))
    case Object(ms) =>
      if |ms| == 1 && ms[0].key == "base64" && ms[0].value.String? && client.base64(ms[0].value.s).Some?
      then Some(Blob(client.base64(ms[0].value.s).value))
      else None
    case _ => None
  }

  /** What can be told of a value: numbers that are not finite read as null. */
  function Told(v: Value): Value {
    if v.NotFinite? then Value.Null else v
  }

  /** Every value is read back from its JSON value. */
  lemma DecodedScalar(v: Value, f: Serde, client: Client)
    requires Understands(client, f)
    ensures Decoded(Scalar(v, f), client) == Some(Told(v))
  {
    hide IntegerText, NumberValue;
    if v.Integer? {
      IntegerBack(v.i);
    }
  }

  // ---------------------------------------------------------------- what the payload says

  function Strings(ss: seq<string>): seq<Json> {
    seq(|ss|, i requires 0 <= i < |ss| => String(ss[i]))
  }

  function Scalars(vs: seq<Value>, f: Serde): seq<Json> {
    seq(|vs|, i requires 0 <= i < |vs| => Scalar(vs[i], f))
  }

  function Rows(rows: seq<seq<Value>>, f: Serde): seq<Json> {
    seq(|rows|, i requires 0 <= i < |rows| => Array(Scalars(rows[i], f)))
  }

  function ErrorObject(error: string): Json {
    Object([Member("error", String(error))])
  }

  function ResultObject(cols: seq<string>, rows: seq<seq<Value>>, f: Serde): Json {
    Object([Member("results",
                   Object([Member("columns", Array(Strings(cols))), Member("rows", Array(Rows(rows, f)))]))])
  }

  /** What has been reported so far: the finished steps, the last call, and the open step. */
  datatype Doc = Doc(done: seq<Json>, last: Call, cols: seq<string>, rows: seq<seq<Value>>, row: seq<Value>)

  const EMPTY := Doc([], Init, [], [], [])

  /** The array element of the step that ends after the call `last`. */
  function Element(doc: Doc, f: Serde): Json {
    match doc.last
    case StepError(error) => ErrorObject(error)
    case FinishRows => ResultObject(doc.cols, doc.rows, f)
    case _ => Json.Null
  }

  function Next(doc: Doc, c: Call, f: Serde): Doc {
    match c
    case Init => EMPTY
    case FinishStep(_, _) => doc.(last := c, done := doc.done + [Element(doc, f)])
    case ColsDescription(cols) => doc.(last := c, cols := cols)
    case BeginRows => doc.(last := c, rows := [])
    case BeginRow => doc.(last := c, row := [])
    case AddRowValue(v) => doc.(last := c, row := doc.row + [v])
    case FinishRow => doc.(last := c, rows := doc.rows + [doc.row])
    case _ => doc.(last := c)
  }

  // ---------------------------------------------------------------- the text written so far

  function Opened(doc: Doc): string {
    "[" + PrintItems(doc.done) + Comma(doc.done == [])
  }

  function Key(k: string, first: bool): string {
    Comma(first) + Quote(k) + ":"
  }

  function InResults(doc: Doc): string {
    Opened(doc) + "{" + Key("results", true) + "{"
  }

  function WithCols(doc: Doc): string {
    InResults(doc) + Key("columns", true) + Print(Array(Strings(doc.cols)))
  }

  function WithRows(doc: Doc, f: Serde): string {
    WithCols(doc) + Key("rows", false) + "[" + PrintItems(Rows(doc.rows, f))
  }

  function WithRow(doc: Doc, f: Serde): string {
    WithRows(doc, f) + Comma(doc.rows == []) + "[" + PrintItems(Scalars(doc.row, f))
  }

  function Partial(doc: Doc, f: Serde): string {
    match doc.last
    case Init => "[" + PrintItems(doc.done)
    case FinishStep(_, _) => "[" + PrintItems(doc.done)
    case Finish => Print(Array(doc.done))
    case BeginStep => InResults(doc)
    case StepError(error) => Opened(doc) + "{" + Key("error", true) + Quote(error)
    case ColsDescription(_) => WithCols(doc)
    case BeginRows => WithRows(doc, f)
    case FinishRow => WithRows(doc, f)
    case BeginRow => WithRow(doc, f)
    case AddRowValue(_) => WithRow(doc, f)
    case FinishRows => WithRows(doc, f) + "]"
  }

  lemma ItemsMore(items: seq<Json>, j: Json)
    ensures PrintItems(items + [j]) == PrintItems(items) + Comma(items == []) + Print(j)
  {
    assert (items + [j])[..|items|] == items;
  }

  lemma PrintError(error: string)
    ensures Print(ErrorObject(error)) == "{" + Key("error", true) + Quote(error) + "}"
  {
    hide PrintMembers, Key, Quote;
    var m := Member("error", String(error));
    MembersOne(m);
    ObjectText([m]);
    assert Print(String(error)) == Quote(error);
    var k, q := Key("error", true), Quote(error);
    assert "{" + (k + q) + "}" == "{" + k + q + "}";
  }

  lemma PrintResult(cols: seq<string>, rows: seq<seq<Value>>, f: Serde)
    ensures Print(ResultObject(cols, rows, f)) ==
      "{" + Key("results", true) + "{" + Key("columns", true) + Print(Array(Strings(cols)))
      + Key("rows", false) + "[" + PrintItems(Rows(rows, f)) + "]" + "}" + "}"
  {
    hide Strings, Rows, Print, PrintMembers, PrintItems, Key;
    var c, r := Member("columns", Array(Strings(cols))), Member("rows", Array(Rows(rows, f)));
    var inner := Object([c, r]);
    PrintPair(c, r);
    MembersOne(Member("results", inner));
    ObjectText([Member("results", inner)]);
    ArrayText(Rows(rows, f));
  }

  lemma PrintPair(c: Member, r: Member)
    ensures Print(Object([c, r])) ==
      "{" + Key(c.key, true) + Print(c.value) + Key(r.key, false) + Print(r.value) + "}"
  {
    hide Print, PrintMembers;
    MembersOne(c);
    MembersMore([c], r);
    ObjectText([c, r]);
    assert [c] + [r] == [c, r];
  }

  lemma ObjectText(members: seq<Member>)
    ensures Print(Object(members)) == "{" + PrintMembers(members) + "}"
  {
  }

  lemma MembersMore(ms: seq<Member>, m: Member)
    ensures PrintMembers(ms + [m]) == PrintMembers(ms) + Comma(ms == []) + PrintMember(m)
  {
    assert (ms + [m])[..|ms|] == ms;
  }

  lemma MembersOne(m: Member)
    ensures PrintMembers([m]) == Key(m.key, true) + Print(m.value)
  {
    assert [] + [m] == [m];
    MembersMore([], m);
  }

  // ---------------------------------------------------------------- what each call writes

  predicate InStep(c: Call) {
    !c.Init? && !c.Finish? && !c.FinishStep?
  }

  /** Reporting an error, and finishing a step that reported nothing, start the element over. */
  predicate StartsOver(doc: Doc, c: Call) {
    c.StepError? || (c.FinishStep? && doc.last.BeginStep?)
  }

  function Kept(doc: Doc, c: Call, f: Serde): string {
    if c.Init? then "" else if StartsOver(doc, c) then Opened(doc) else Partial(doc, f)
  }

  function Fragment(doc: Doc, c: Call, f: Serde): string {
    match c
    case Init => "["
    case Finish => "]"
    case BeginStep => Comma(doc.done == []) + "{" + Key("results", true) + "{"
    case FinishStep(_, _) => if doc.last.BeginStep? then "null" else if doc.last.StepError? then "}" else "}" + "}"
    case StepError(error) => "{" + Key("error", true) + Quote(error)
    case ColsDescription(cols) => Key("columns", true) + Print(Array(Strings(cols)))
    case BeginRows => Key("rows", false) + "["
    case BeginRow => Comma(doc.rows == []) + "["
    case AddRowValue(v) => Comma(doc.row == []) + Print(Scalar(v, f))
    case FinishRow => "]"
    case FinishRows => "]"
  }

  lemma OpenedPrefix(doc: Doc, f: Serde)
    requires InStep(doc.last)
    ensures Opened(doc) <= Partial(doc, f)
  {
    hide Opened, Key, Print, PrintItems, Strings, Scalars, Rows, Comma;
  }

  lemma RowsMore(rows: seq<seq<Value>>, row: seq<Value>, f: Serde)
    ensures PrintItems(Rows(rows + [row], f)) ==
      PrintItems(Rows(rows, f)) + Comma(rows == []) + "[" + PrintItems(Scalars(row, f)) + "]"
  {
    hide PrintItems, Comma, Scalars;
    var j := Array(Scalars(row, f));
    assert Rows(rows + [row], f) == Rows(rows, f) + [j];
    ItemsMore(Rows(rows, f), j);
    assert Print(j) == "[" + PrintItems(Scalars(row, f)) + "]";
    assert PrintItems(Rows(rows, f)) + Comma(rows == []) + Print(j) ==
      PrintItems(Rows(rows, f)) + Comma(rows == []) + "[" + PrintItems(Scalars(row, f)) + "]";
  }

  lemma ValuesMore(row: seq<Value>, v: Value, f: Serde)
    ensures PrintItems(Scalars(row + [v], f)) == PrintItems(Scalars(row, f)) + Comma(row == []) + Print(Scalar(v, f))
  {
    hide PrintItems, Comma;
    assert Scalars(row + [v], f) == Scalars(row, f) + [Scalar(v, f)];
    ItemsMore(Scalars(row, f), Scalar(v, f));
  }

  /** Finishing a step completes its element. */
  lemma FinishWrites(doc: Doc, c: Call, f: Serde)
    requires c.FinishStep? && MayFollow(c, doc.last)
    ensures Partial(Next(doc, c, f), f) == Kept(doc, c, f) + Fragment(doc, c, f)
  {
    hide Print, PrintItems, Strings, Rows, Key, Comma, ErrorObject, ResultObject, Opened, WithRows;
    ItemsMore(doc.done, Element(doc, f));
    OpenedText(doc);
    assert Partial(Next(doc, c, f), f) == Opened(doc) + Print(Element(doc, f));
    match doc.last {
      case StepError(error) =>
        PrintError(error);
      case FinishRows =>
        ResultText(doc, f);
      case BeginStep =>
        NullText();
    }
  }

  lemma NullText()
    ensures Print(Json.Null) == "null"
  {
  }

  lemma OpenedText(doc: Doc)
    ensures Opened(doc) == "[" + PrintItems(doc.done) + Comma(doc.done == [])
  {
  }

  lemma ResultText(doc: Doc, f: Serde)
    ensures Opened(doc) + Print(ResultObject(doc.cols, doc.rows, f)) == WithRows(doc, f) + "]" + ("}" + "}")
  {
    hide Print, PrintItems, Strings, Rows, Key, Comma, ResultObject, Opened;
    PrintResult(doc.cols, doc.rows, f);
  }

  lemma ArrayText(items: seq<Json>)
    ensures Print(Array(items)) == "[" + PrintItems(items) + "]"
  {
  }

  lemma SameStart(doc: Doc, doc': Doc)
    requires doc.done == doc'.done && doc.cols == doc'.cols
    ensures Opened(doc) == Opened(doc') && WithCols(doc) == WithCols(doc')
  {
  }

  lemma RowWrites(doc: Doc, c: Call, f: Serde)
    requires MayFollow(c, doc.last) && (c.BeginRows? || c.BeginRow?)
    ensures Partial(Next(doc, c, f), f) == Kept(doc, c, f) + Fragment(doc, c, f)
  {
    hide Print, PrintItems, Strings, Scalars, Rows, Key, Comma, WithCols;
    SameStart(doc, Next(doc, c, f));
    NoRows(f);
  }

  lemma ValueWrites(doc: Doc, c: Call, f: Serde)
    requires MayFollow(c, doc.last) && c.AddRowValue?
    ensures Partial(Next(doc, c, f), f) == Kept(doc, c, f) + Fragment(doc, c, f)
  {
    hide Print, PrintItems, Strings, Scalars, Rows, Key, Comma, WithCols;
    SameStart(doc, Next(doc, c, f));
    ValuesMore(doc.row, c.v, f);
  }

  lemma FinishRowWrites(doc: Doc, c: Call, f: Serde)
    requires MayFollow(c, doc.last) && c.FinishRow?
    ensures Partial(Next(doc, c, f), f) == Kept(doc, c, f) + Fragment(doc, c, f)
  {
    hide Print, PrintItems, Strings, Scalars, Rows, Key, Comma, WithCols;
    SameStart(doc, Next(doc, c, f));
    RowsMore(doc.rows, doc.row, f);
  }

  /** A call adds its fragment to what is kept. */
  lemma CallWrites(doc: Doc, c: Call, f: Serde)
    requires MayFollow(c, doc.last)
    ensures Partial(Next(doc, c, f), f) == Kept(doc, c, f) + Fragment(doc, c, f)
  {
    hide Print, PrintItems, Strings, Key, Comma, WithRows, WithRow;
    match c {
      case Init =>
        NoItems();
      case Finish =>
        ArrayText(doc.done);
      case FinishStep(_, _) =>
        FinishWrites(doc, c, f);
      case FinishRows =>
        SameRows(doc, c, f);
      case BeginStep =>
      case StepError(_) =>
      case ColsDescription(_) =>
      case AddRowValue(_) =>
        ValueWrites(doc, c, f);
      case FinishRow =>
        FinishRowWrites(doc, c, f);
      case _ =>
        RowWrites(doc, c, f);
    }
  }

  lemma SameRows(doc: Doc, c: Call, f: Serde)
    ensures WithRows(doc.(last := c), f) == WithRows(doc, f)
  {
  }

  lemma NoRows(f: Serde)
    ensures PrintItems(Rows([], f)) == "" && PrintItems(Scalars([], f)) == ""
  {
  }

  lemma EmptyText(f: Serde)
    ensures Partial(EMPTY, f) == "[" && Utf8Len("[") == 1
  {
    NoItems();
  }

  lemma OpensStep(doc: Doc, f: Serde)
    requires MayFollow(BeginStep, doc.last)
    ensures Opened(doc) == Partial(doc, f) + Comma(doc.done == [])
    ensures Opened(Next(doc, BeginStep, f)) == Opened(doc)
  {
  }

  // ---------------------------------------------------------------- bytes

  /** The number of bytes of a character in UTF-8 (section 3 of RFC 3629). */
  function CharLen(c: char): nat {
    if c as int < 0x80 then 1
    else if c as int < 0x800 then 2
    else if c as int < 0x1_0000 then 3
    else 4
  }

  /** The number of bytes of a text. */
  function Utf8Len(s: string): nat {
    if s == "" then 0 else Utf8Len(s[..|s| - 1]) + CharLen(s[|s| - 1])
  }

  /** The bytes of a character: six bits in each byte but the first. */
  function Utf8Char(c: char): seq<int> {
    var n := c as int;
    if n < 0x80 then [n]
    else if n < 0x800 then [0xC0 + n / 0x40, 0x80 + n % 0x40]
    else if n < 0x1_0000 then [0xE0 + n / 0x40 / 0x40, 0x80 + n / 0x40 % 0x40, 0x80 + n % 0x40]
    else [0xF0 + n / 0x40 / 0x40 / 0x40, 0x80 + n / 0x40 / 0x40 % 0x40, 0x80 + n / 0x40 % 0x40, 0x80 + n % 0x40]
  }

  function Utf8(s: string): seq<int> {
    if s == "" then [] else Utf8(s[..|s| - 1]) + Utf8Char(s[|s| - 1])
  }

  /** The number with six bits more. */
  function SixMore(n: int, b: int): int {
    0x40 * n + (b - 0x80)
  }

  /** The number of the first character and the number of its bytes, told by the first byte. */
  function FirstChar(b: seq<int>): Option<(int, nat)> {
    if |b| >= 1 && 0 <= b[0] < 0x80 then Some((b[0], 1))
    else if |b| >= 2 && 0xC0 <= b[0] < 0xE0 then Some((SixMore(b[0] - 0xC0, b[1]), 2))
    else if |b| >= 3 && 0xE0 <= b[0] < 0xF0 then Some((SixMore(SixMore(b[0] - 0xE0, b[1]), b[2]), 3))
    else if |b| >= 4 && 0xF0 <= b[0] < 0xF8 then
      Some((SixMore(SixMore(SixMore(b[0] - 0xF0, b[1]), b[2]), b[3]), 4))
    else None
  }

  lemma SixBits(n: nat)
    ensures SixMore(n / 0x40, 0x80 + n % 0x40) == n
    ensures forall k: nat :: n < 0x40 * k ==> n / 0x40 < k
  {
  }

  /** The bytes of a character are read back, and they are as many as counted. */
  lemma CharBack(c: char, rest: seq<int>)
    ensures FirstChar(Utf8Char(c) + rest) == Some((c as int, CharLen(c)))
    ensures |Utf8Char(c)| == CharLen(c)
  {
    hide SixMore;
    var n := c as int;
    SixBits(n);
    SixBits(n / 0x40);
    SixBits(n / 0x40 / 0x40);
  }

  lemma {:induction false} Utf8LenIs(s: string)
    ensures |Utf8(s)| == Utf8Len(s)
  {
    if s != "" {
      Utf8LenIs(s[..|s| - 1]);
      CharBack(s[|s| - 1], []);
    }
  }

  lemma {:induction false} Utf8Join(a: string, b: string)
    ensures Utf8Len(a + b) == Utf8Len(a) + Utf8Len(b)
  {
    if b == "" {
      assert a + b == a;
    } else {
      assert (a + b)[..|a + b| - 1] == a + b[..|b| - 1];
      Utf8Join(a, b[..|b| - 1]);
    }
  }

  lemma PrefixIsShorter(a: string, b: string)
    requires a <= b
    ensures Utf8Len(a) <= Utf8Len(b)
  {
    Utf8Join(a, b[|a|..]);
    assert a + b[|a|..] == b;
  }

  // ---------------------------------------------------------------- the builder

  predicate InRows(c: Call) {
    c.BeginRows? || c.BeginRow? || c.AddRowValue? || c.FinishRow?
  }

  class JsonHttpPayloadBuilder {
    const f: Serde
    var buffer: string
    var limit: nat
    /** where the text of the current step begins */
    var checkpoint: nat
    /** number of steps */
    var stepCount: nat
    /** number of values in the current row */
    var rowValueCount: nat
    /** number of rows in the current step */
    var stepRowCount: nat
    var isStepError: bool
    var isStepEmpty: bool
    ghost var doc: Doc

    constructor (f: Serde)
      ensures this.f == f
    {
      this.f := f;
      buffer, limit, checkpoint, stepCount, rowValueCount, stepRowCount := "", 0, 0, 0, 0, 0;
      isStepError, isStepEmpty, doc := false, false, EMPTY;
    }

    ghost predicate Counters()
      reads this
    {
      && stepCount == |doc.done|
      && (InStep(doc.last) ==>
            && checkpoint == |Opened(doc)|
            && isStepError == doc.last.StepError?
            && isStepEmpty == doc.last.BeginStep?)
      && (InRows(doc.last) ==> stepRowCount == |doc.rows|)
      && (doc.last.BeginRow? || doc.last.AddRowValue? ==> rowValueCount == |doc.row|)
    }

    /** The buffer holds the text of what has been reported. */
    ghost predicate Valid()
      reads this
    {
      buffer == Partial(doc, f) && Utf8Len(buffer) <= limit && Counters()
    }

    /** The call took effect: the buffer holds the text of the document it leads to, which is
        the case if and only if that text fits the limit.  Otherwise the buffer holds a part of
        that text that does. */
    twostate predicate Took(c: Call, ok: bool)
      reads this
    {
      && (ok ==> Valid() && doc == Next(old(doc), c, f))
      && (ok <==> Utf8Len(Partial(Next(old(doc), c, f), f)) <= limit)
      && (!ok ==> buffer <= Partial(Next(old(doc), c, f), f) && Utf8Len(buffer) <= limit)
      && limit == old(limit)
    }

    /** The buffer takes the bytes of a fragment if they fit the limit. */
    method Write(fragment: string) returns (ok: bool)
      modifies this`buffer
      ensures ok <==> Utf8Len(old(buffer) + fragment) <= limit
      ensures buffer == if ok then old(buffer) + fragment else old(buffer)
    {
      Utf8Join(buffer, fragment);
      if Utf8Len(buffer) + Utf8Len(fragment) > limit {
        return false;
      }
      buffer := buffer + fragment;
      return true;
    }

    method Init(maxSize: nat) returns (ok: bool)
      modifies this
      ensures limit == maxSize && (ok ==> Valid() && doc == EMPTY) && (ok <==> maxSize >= 1)
      ensures !ok ==> buffer == "" && Utf8Len(buffer) == 0
    {
      hide Opened;
      buffer, limit, checkpoint, stepCount, rowValueCount, stepRowCount := "", maxSize, 0, 0, 0, 0;
      isStepError, isStepEmpty, doc := false, false, EMPTY;
      NoItems();
      ok := Write("[");
    }

    method BeginStep() returns (ok: bool)
      requires Valid() && MayFollow(Call.BeginStep, doc.last)
      modifies this
      ensures Took(Call.BeginStep, ok)
    {
      hide Utf8Len, Partial, Key, Opened;
      CallWrites(doc, Call.BeginStep, f);
      OpensStep(doc, f);
      isStepEmpty, isStepError := true, false;
      var comma, rest := Comma(stepCount == 0), "{" + Key("results", true) + "{";
      assert comma + rest == Fragment(doc, Call.BeginStep, f);
      assert buffer + Fragment(doc, Call.BeginStep, f) == buffer + comma + rest;
      PrefixIsShorter(buffer + comma, buffer + comma + rest);
      ok := Write(comma);
      if !ok {
        return;
      }
      checkpoint := |buffer|;
      ok := Write(rest);
      doc := Next(doc, Call.BeginStep, f);
    }

    method FinishStep(affectedRowCount: nat, lastInsertRowid: Option<int>) returns (ok: bool)
      requires Valid() && MayFollow(Call.FinishStep(affectedRowCount, lastInsertRowid), doc.last)
      modifies this
      ensures Took(Call.FinishStep(affectedRowCount, lastInsertRowid), ok)
    {
      hide Utf8Len, Partial, Opened, Element;
      ghost var c := Call.FinishStep(affectedRowCount, lastInsertRowid);
      CallWrites(doc, c, f);
      OpenedPrefix(doc, f);
      PrefixIsShorter(Opened(doc), buffer);
      if isStepEmpty && !isStepError {
        buffer := buffer[..checkpoint];
        assert buffer == Opened(doc);
        ok := Write("null");
      } else if isStepError {
        ok := Write("}");
      } else {
        ok := Write("}" + "}");
      }
      stepCount := stepCount + 1;
      doc := Next(doc, c, f);
    }

    method StepError(error: string) returns (ok: bool)
      requires Valid() && MayFollow(Call.StepError(error), doc.last)
      modifies this
      ensures Took(Call.StepError(error), ok)
    {
      hide Utf8Len, Partial, Key, Opened;
      ghost var c := Call.StepError(error);
      CallWrites(doc, c, f);
      OpenedPrefix(doc, f);
      PrefixIsShorter(Opened(doc), buffer);
      SameStart(doc, Next(doc, c, f));
      isStepError, isStepEmpty := true, false;
      buffer := buffer[..checkpoint];
      assert buffer == Opened(doc);
      ok := Write("{" + Key("error", true) + Quote(error));
      doc := Next(doc, c, f);
    }

    method ColsDescription(cols: seq<string>) returns (ok: bool)
      requires Valid() && MayFollow(Call.ColsDescription(cols), doc.last)
      modifies this
      ensures Took(Call.ColsDescription(cols), ok)
    {
      hide Utf8Len, Partial, Key, Print;
      ghost var c := Call.ColsDescription(cols);
      CallWrites(doc, c, f);
      assert !isStepError;
      isStepEmpty := false;
      ok := Write(Key("columns", true) + Print(Array(Strings(cols))));
      doc := Next(doc, c, f);
    }

    method BeginRows() returns (ok: bool)
      requires Valid() && MayFollow(Call.BeginRows, doc.last)
      modifies this
      ensures Took(Call.BeginRows, ok)
    {
      hide Utf8Len, Partial, Key;
      CallWrites(doc, Call.BeginRows, f);
      assert !isStepError;
      stepRowCount := 0;
      ok := Write(Key("rows", false) + "[");
      doc := Next(doc, Call.BeginRows, f);
    }

    method BeginRow() returns (ok: bool)
      requires Valid() && MayFollow(Call.BeginRow, doc.last)
      modifies this
      ensures Took(Call.BeginRow, ok)
    {
      hide Utf8Len, Partial;
      CallWrites(doc, Call.BeginRow, f);
      assert !isStepError;
      rowValueCount := 0;
      ok := Write(Comma(stepRowCount == 0) + "[");
      doc := Next(doc, Call.BeginRow, f);
    }

    method AddRowValue(v: Value) returns (ok: bool)
      requires Valid() && MayFollow(Call.AddRowValue(v), doc.last)
      modifies this
      ensures Took(Call.AddRowValue(v), ok)
    {
      hide Utf8Len, Partial;
      ghost var c := Call.AddRowValue(v);
      CallWrites(doc, c, f);
      assert !isStepError;
      ok := Write(Comma(rowValueCount == 0) + Print(Scalar(v, f)));
      rowValueCount := rowValueCount + 1;
      doc := Next(doc, c, f);
    }

    method FinishRow() returns (ok: bool)
      requires Valid() && MayFollow(Call.FinishRow, doc.last)
      modifies this
      ensures Took(Call.FinishRow, ok)
    {
      hide Utf8Len, Partial;
      CallWrites(doc, Call.FinishRow, f);
      assert !isStepError;
      stepRowCount := stepRowCount + 1;
      ok := Write("]");
      doc := Next(doc, Call.FinishRow, f);
    }

    method FinishRows() returns (ok: bool)
      requires Valid() && MayFollow(Call.FinishRows, doc.last)
      modifies this
      ensures Took(Call.FinishRows, ok)
    {
      hide Utf8Len, Partial;
      CallWrites(doc, Call.FinishRows, f);
      assert !isStepError;
      ok := Write("]");
      doc := Next(doc, Call.FinishRows, f);
    }

    method Finish() returns (ok: bool)
      requires Valid() && MayFollow(Call.Finish, doc.last)
      modifies this
      ensures Took(Call.Finish, ok)
      ensures ok ==> buffer == Print(Array(doc.done)) && doc.done == old(doc.done)
    {
      hide Utf8Len;
      CallWrites(doc, Call.Finish, f);
      ok := Write("]");
      doc := Next(doc, Call.Finish, f);
    }

    /** Answers one call; every call to `init` has the same configuration. */
    method Answer(c: Call) returns (ok: bool)
      requires Valid() && MayFollow(c, doc.last)
      modifies this
      ensures Took(c, ok)
    {
      hide Utf8Len, Partial, Counters;
      match c {
        case Init =>
          EmptyText(f);
          ok := Init(limit);
        case BeginStep => ok := BeginStep();
        case FinishStep(n, id) => ok := FinishStep(n, id);
        case StepError(error) => ok := StepError(error);
        case ColsDescription(cols) => ok := ColsDescription(cols);
        case BeginRows => ok := BeginRows();
        case BeginRow => ok := BeginRow();
        case AddRowValue(v) => ok := AddRowValue(v);
        case FinishRow => ok := FinishRow();
        case FinishRows => ok := FinishRows();
        case Finish => ok := Finish();
      }
    }
  }

  // ---------------------------------------------------------------- whole runs

  /** What a sequence of calls reports. */
  function After(doc: Doc, calls: seq<Call>, f: Serde): Doc {
    if calls == [] then doc else Next(After(doc, calls[..|calls| - 1], f), calls[|calls| - 1], f)
  }

  lemma {:induction false} AfterJoin(doc: Doc, a: seq<Call>, b: seq<Call>, f: Serde)
    ensures After(doc, a + b, f) == After(After(doc, a, f), b, f)
  {
    hide Next;
    if b == [] {
      assert a + b == a;
    } else {
      assert (a + b)[..|a + b| - 1] == a + b[..|b| - 1];
      AfterJoin(doc, a, b[..|b| - 1], f);
    }
  }

  lemma AfterOne(doc: Doc, c: Call, f: Serde)
    ensures After(doc, [c], f) == Next(doc, c, f)
  {
    assert [c][..0] == [];
  }

  lemma {:induction false} AfterValues(doc: Doc, values: seq<Value>, f: Serde)
    ensures var d := After(doc, ValueCalls(values), f);
      d.done == doc.done && d.cols == doc.cols && d.rows == doc.rows && d.row == doc.row + values
  {
    if values == [] {
      assert doc.row + values == doc.row;
    } else {
      var front, v := values[..|values| - 1], values[|values| - 1];
      AfterValues(doc, front, f);
      assert ValueCalls(values) == ValueCalls(front) + [AddRowValue(v)];
      AfterJoin(doc, ValueCalls(front), [AddRowValue(v)], f);
      AfterOne(After(doc, ValueCalls(front), f), AddRowValue(v), f);
      assert doc.row + front + [v] == doc.row + values;
    }
  }

  lemma AfterRow(doc: Doc, row: seq<Value>, f: Serde)
    ensures var d := After(doc, RowCalls(row), f);
      d.done == doc.done && d.cols == doc.cols && d.rows == doc.rows + [row]
  {
    hide After, ValueCalls;
    var begun := Next(doc, BeginRow, f);
    AfterOne(doc, BeginRow, f);
    AfterJoin(doc, [BeginRow], ValueCalls(row), f);
    AfterValues(begun, row, f);
    AfterJoin(doc, [BeginRow] + ValueCalls(row), [FinishRow], f);
    AfterOne(After(begun, ValueCalls(row), f), FinishRow, f);
    assert [] + row == row;
  }

  lemma {:induction false} AfterRows(doc: Doc, rows: seq<seq<Value>>, f: Serde)
    ensures var d := After(doc, RowsCalls(rows), f);
      d.done == doc.done && d.cols == doc.cols && d.rows == doc.rows + rows
  {
    hide After, RowCalls;
    if rows == [] {
      AfterNone(doc, f);
      assert doc.rows + rows == doc.rows;
    } else {
      var front, row := rows[..|rows| - 1], rows[|rows| - 1];
      AfterRows(doc, front, f);
      AfterJoin(doc, RowsCalls(front), RowCalls(row), f);
      AfterRow(After(doc, RowsCalls(front), f), row, f);
      assert doc.rows + front + [row] == doc.rows + rows;
    }
  }

  lemma AfterNone(doc: Doc, f: Serde)
    ensures After(doc, [], f) == doc
  {
  }

  lemma AfterTail(doc: Doc, o: Outcome, f: Serde)
    requires HasRows(o)
    ensures var d := After(doc, TailCalls(o), f);
      d.done == doc.done && d.cols == doc.cols && d.rows == doc.rows && (o.Success? ==> d.last.FinishRows?)
  {
    hide After, ValueCalls;
    if o.Success? {
      AfterOne(doc, FinishRows, f);
    } else if o.partial.None? {
      AfterNone(doc, f);
    } else {
      var values := o.partial.value;
      AfterOne(doc, BeginRow, f);
      AfterJoin(doc, [BeginRow], ValueCalls(values), f);
      AfterValues(Next(doc, BeginRow, f), values, f);
    }
  }

  /** A query reports its columns and rows, and no finished step. */
  lemma AfterQuery(doc: Doc, o: Outcome, f: Serde)
    ensures var d := After(doc, QueryCalls(o), f);
      && d.done == doc.done
      && (o.Success? ==> d.last.FinishRows? && d.cols == o.cols && d.rows == o.rows)
  {
    hide After, RowsCalls, TailCalls;
    match o {
      case Refused(_) =>
        AfterNone(doc, f);
      case BadParams(cols, _) =>
        AfterOne(doc, ColsDescription(cols), f);
      case _ =>
        var d1 := Next(doc, ColsDescription(o.cols), f);
        var d2 := Next(d1, BeginRows, f);
        AfterOne(doc, ColsDescription(o.cols), f);
        AfterOne(d1, BeginRows, f);
        AfterJoin(doc, [ColsDescription(o.cols)], [BeginRows], f);
        assert [ColsDescription(o.cols)] + [BeginRows] == [ColsDescription(o.cols), BeginRows];
        AfterJoin(doc, [ColsDescription(o.cols), BeginRows], RowsCalls(o.rows), f);
        AfterRows(d2, o.rows, f);
        AfterJoin(doc, [ColsDescription(o.cols), BeginRows] + RowsCalls(o.rows), TailCalls(o), f);
        AfterTail(After(d2, RowsCalls(o.rows), f), o, f);
        assert [] + o.rows == o.rows;
    }
  }

  /** The element of a step, straight from how it went: an error, nothing, or columns and rows. */
  function StepElement(enabled: Result<bool, nat>, o: Outcome, f: Serde): Json {
    match enabled
    case Err(step) => ErrorObject(InvalidBatchStep(step))
    case Ok(false) => Json.Null
    case Ok(true) => if o.Success? then ResultObject(o.cols, o.rows, f) else ErrorObject(o.error)
  }

  lemma AfterErrors(doc: Doc, enabled: Result<bool, nat>, o: Outcome, f: Serde)
    requires doc.last.BeginStep?
    ensures var d := After(doc, ErrorCalls(enabled, o), f);
      d.done == doc.done && Element(d, f) == StepElement(enabled, o, f)
  {
    hide After, QueryCalls, ErrorObject, ResultObject, InvalidBatchStep;
    match enabled {
      case Err(step) =>
        AfterOne(doc, StepError(InvalidBatchStep(step)), f);
      case Ok(false) =>
        AfterNone(doc, f);
      case Ok(true) =>
        AfterQuery(doc, o, f);
        if o.Success? {
          assert QueryCalls(o) + [] == QueryCalls(o);
        } else {
          AfterJoin(doc, QueryCalls(o), [StepError(o.error)], f);
          AfterOne(After(doc, QueryCalls(o), f), StepError(o.error), f);
        }
    }
  }

  lemma AfterStep(doc: Doc, enabled: Result<bool, nat>, o: Outcome, f: Serde)
    ensures After(doc, StepCalls(enabled, o), f).done == doc.done + [StepElement(enabled, o, f)]
  {
    hide After, ErrorCalls, Element, StepElement;
    var begun, last := Next(doc, BeginStep, f), FinishCall(enabled, o);
    AfterOne(doc, BeginStep, f);
    AfterJoin(doc, [BeginStep], ErrorCalls(enabled, o), f);
    AfterErrors(begun, enabled, o, f);
    AfterJoin(doc, [BeginStep] + ErrorCalls(enabled, o), [last], f);
    AfterOne(After(begun, ErrorCalls(enabled, o), f), last, f);
  }

  /** One element for every step. */
  function Elements(pgm: seq<Step>, outcome: nat -> Outcome, auto: nat -> bool, f: Serde): seq<Json> {
    seq(|pgm|, i requires 0 <= i < |pgm| => StepElement(EnabledAt(pgm, outcome, auto, i), outcome(i), f))
  }

  lemma {:induction false} AfterSteps(pgm: seq<Step>, outcome: nat -> Outcome, auto: nat -> bool, f: Serde, k: nat)
    requires k <= |pgm|
    ensures After(EMPTY, [Init] + StepsCalls(pgm, outcome, auto, k), f).done == Elements(pgm, outcome, auto, f)[..k]
  {
    hide After, StepCalls, StepElement, EnabledAt;
    if k == 0 {
      AfterOne(EMPTY, Init, f);
      assert [Init] + StepsCalls(pgm, outcome, auto, 0) == [Init];
    } else {
      AfterSteps(pgm, outcome, auto, f, k - 1);
      OneMoreStep(pgm, outcome, auto, k - 1);
      var before, enabled := [Init] + StepsCalls(pgm, outcome, auto, k - 1), EnabledAt(pgm, outcome, auto, k - 1);
      AfterJoin(EMPTY, before, StepCalls(enabled, outcome(k - 1)), f);
      AfterStep(After(EMPTY, before, f), enabled, outcome(k - 1), f);
      var es := Elements(pgm, outcome, auto, f);
      assert es[..k] == es[..k - 1] + [es[k - 1]];
    }
  }

  /** What a whole run reports. */
  lemma AfterRun(pgm: seq<Step>, outcome: nat -> Outcome, auto: nat -> bool, f: Serde)
    ensures After(EMPTY, RunCalls(pgm, outcome, auto), f).done == Elements(pgm, outcome, auto, f)
    ensures After(EMPTY, RunCalls(pgm, outcome, auto), f).last.Finish?
  {
    hide After, StepsCalls, StepElement, EnabledAt;
    var n := |pgm|;
    AfterSteps(pgm, outcome, auto, f, n);
    AfterJoin(EMPTY, [Init] + StepsCalls(pgm, outcome, auto, n), [Finish], f);
    AfterOne(After(EMPTY, [Init] + StepsCalls(pgm, outcome, auto, n), f), Finish, f);
    assert Elements(pgm, outcome, auto, f)[..n] == Elements(pgm, outcome, auto, f);
  }

  ghost predicate AllSound(js: seq<Json>) {
    forall i :: 0 <= i < |js| ==> Sound(js[i])
  }

  lemma ElementSound(doc: Doc, f: Serde)
    requires IsSerde(f)
    ensures Sound(Element(doc, f))
  {
    hide IsSerde, Scalar;
    if doc.last.FinishRows? {
      forall i, j | 0 <= i < |doc.rows| && 0 <= j < |doc.rows[i]|
        ensures Sound(Scalar(doc.rows[i][j], f))
      {
        ScalarSound(doc.rows[i][j], f);
      }
      assert AllSound(Strings(doc.cols)) && AllSound(Rows(doc.rows, f));
      assert Sound(Array(Strings(doc.cols))) && Sound(Array(Rows(doc.rows, f)));
    }
  }

  /** Every element that is ever finished is a JSON value. */
  lemma {:induction false} AfterSound(calls: seq<Call>, f: Serde)
    requires IsSerde(f)
    ensures AllSound(After(EMPTY, calls, f).done)
  {
    hide IsSerde, Element, Sound;
    if calls != [] {
      var front := calls[..|calls| - 1];
      AfterSound(front, f);
      ElementSound(After(EMPTY, front, f), f);
    }
  }

  /** A finished document is a JSON text, and reading it gives its elements back. */
  lemma FinishedIsJson(calls: seq<Call>, f: Serde)
    requires IsSerde(f) && After(EMPTY, calls, f).last.Finish?
    ensures var doc := After(EMPTY, calls, f); Read(Partial(doc, f)) == Good(Array(doc.done), "")
  {
    AfterSound(calls, f);
    hide After, Read, Print, IsSerde;
    var j := Array(After(EMPTY, calls, f).done);
    assert Sound(j);
    ReadPrint(j, "");
    assert Print(j) + "" == Print(j);
  }

  /** Gives a builder any sequence of calls that the transition table accepts.  As long as the
      text fits the limit, the buffer holds exactly the text of what the calls report. */
  method Build(calls: seq<Call>, f: Serde, maxSize: nat) returns (ok: bool, buffer: string)
    requires Accepted(calls) && calls != []
    ensures ok ==> buffer == Partial(After(EMPTY, calls, f), f)
    ensures ok && calls[|calls| - 1].Finish? && IsSerde(f) ==>
      Read(buffer) == Good(Array(After(EMPTY, calls, f).done), "")
    ensures Utf8Len(buffer) <= maxSize
    ensures ok <==> forall i :: 0 < i <= |calls| ==> Utf8Len(Partial(After(EMPTY, calls[..i], f), f)) <= maxSize
  {
    hide After, Partial, Next, JsonHttpPayloadBuilder.Counters, Read, IsSerde, Utf8Len;
    var b := new JsonHttpPayloadBuilder(f);
    ok := b.Init(maxSize);
    InitAlone(calls, f);
    if !ok {
      return false, b.buffer;
    }
    for i := 1 to |calls|
      invariant b.Valid() && b.limit == maxSize && b.f == f && b.doc == After(EMPTY, calls[..i], f)
      invariant forall j :: 0 < j <= i ==> Utf8Len(Partial(After(EMPTY, calls[..j], f), f)) <= maxSize
      invariant b.doc.last == calls[i - 1]
    {
      assert calls[..i + 1] == calls[..i] + [calls[i]];
      AfterJoin(EMPTY, calls[..i], [calls[i]], f);
      AfterOne(b.doc, calls[i], f);
      NextLast(b.doc, calls[i], f);
      ok := b.Answer(calls[i]);
      if !ok {
        return false, b.buffer;
      }
    }
    assert calls[..|calls|] == calls;
    if calls[|calls| - 1].Finish? && IsSerde(f) {
      FinishedIsJson(calls, f);
    }
    return true, b.buffer;
  }

  lemma NextLast(doc: Doc, c: Call, f: Serde)
    ensures Next(doc, c, f).last == c
  {
  }

  lemma InitAlone(calls: seq<Call>, f: Serde)
    requires calls != [] && calls[0].Init?
    ensures After(EMPTY, calls[..1], f) == EMPTY && Utf8Len(Partial(EMPTY, f)) == 1
  {
    assert calls[..1] == [Init];
    AfterOne(EMPTY, Init, f);
    EmptyText(f);
  }

  // ---------------------------------------------------------------- what a client reads

  /** What the payload tells about a step. */
  datatype Report = NotRun | Failed(error: string) | Table(cols: seq<string>, rows: seq<seq<Value>>)

  /** The value of the first member with the given name. */
  function Get(members: seq<Member>, key: string): Option<Json> {
    if members == [] then None
    else if members[0].key == key then Some(members[0].value)
    else Get(members[1..], key)
  }

  ghost predicate ReadsAsTexts(j: Json, texts: seq<string>) {
    && j.Array? && |j.items| == |texts|
    && forall i :: 0 <= i < |texts| ==> j.items[i] == String(texts[i])
  }

  ghost predicate ReadsAsRow(j: Json, row: seq<Value>, client: Client) {
    && j.Array? && |j.items| == |row|
    && forall i :: 0 <= i < |row| ==> Decoded(j.items[i], client) == Some(Told(row[i]))
  }

  ghost predicate ReadsAsRows(j: Json, rows: seq<seq<Value>>, client: Client) {
    && j.Array? && |j.items| == |rows|
    && forall i :: 0 <= i < |rows| ==> ReadsAsRow(j.items[i], rows[i], client)
  }

  /** A client reads the element as the report: `null`, an object with an `error`, or one with
      `results` that has `columns` and `rows`. */
  ghost predicate ReadsAs(j: Json, r: Report, client: Client) {
    match r
    case NotRun => j == Json.Null
    case Failed(error) => j.Object? && Get(j.members, "error") == Some(String(error))
    case Table(cols, rows) =>
      && j.Object? && Get(j.members, "error") == None
      && var results := Get(j.members, "results");
      && results.Some? && results.value.Object?
      && var c, r := Get(results.value.members, "columns"), Get(results.value.members, "rows");
      && c.Some? && ReadsAsTexts(c.value, cols)
      && r.Some? && ReadsAsRows(r.value, rows, client)
  }

  /** What there is to report about step `i` of a run. */
  ghost function ReportOf(pgm: seq<Step>, outcome: nat -> Outcome, auto: nat -> bool, i: nat): Report
    requires i < |pgm|
  {
    match EnabledAt(pgm, outcome, auto, i)
    case Err(step) => Failed("Invalid batch step: " + IntegerText(step))
    case Ok(runs) =>
      if !runs then NotRun
      else
        match outcome(i)
        case Success(cols, rows, _, _) => Table(cols, rows)
        case Refused(error) => Failed(error)
        case BadParams(_, error) => Failed(error)
        case Broken(_, _, _, error) => Failed(error)
  }

  lemma OneElementEach(pgm: seq<Step>, outcome: nat -> Outcome, auto: nat -> bool, f: Serde)
    ensures |Elements(pgm, outcome, auto, f)| == |pgm|
  {
  }

  lemma ElementReads(pgm: seq<Step>, outcome: nat -> Outcome, auto: nat -> bool, f: Serde, client: Client, i: nat)
    requires i < |pgm| && Understands(client, f)
    ensures ReadsAs(Elements(pgm, outcome, auto, f)[i], ReportOf(pgm, outcome, auto, i), client)
  {
    hide EnabledAt, Understands, Scalar, Decoded;
    if outcome(i).Success? {
      RowsRead(outcome(i).cols, outcome(i).rows, f, client);
    }
  }

  lemma RowsRead(cols: seq<string>, rows: seq<seq<Value>>, f: Serde, client: Client)
    requires Understands(client, f)
    ensures ReadsAs(ResultObject(cols, rows, f), Table(cols, rows), client)
  {
    hide Understands, Scalar, Decoded;
    var c, r := Member("columns", Array(Strings(cols))), Member("rows", Array(Rows(rows, f)));
    assert [c, r][1..] == [r] && Get([c, r], "columns") == Some(c.value) && Get([c, r], "rows") == Some(r.value);
    var results := [Member("results", Object([c, r]))];
    assert results[1..] == [] && Get(results, "error") == None && Get(results, "results") == Some(Object([c, r]));
    forall i | 0 <= i < |rows|
      ensures ReadsAsRow(Array(Scalars(rows[i], f)), rows[i], client)
    {
      forall k | 0 <= k < |rows[i]|
        ensures Decoded(Scalars(rows[i], f)[k], client) == Some(Told(rows[i][k]))
      {
        DecodedScalar(rows[i][k], f, client);
      }
    }
  }

  /** The payload of a run is the array of its elements, whatever was written and taken back on
      the way; a client reads from it what there is to report about every step. */
  method RunToJson(pgm: seq<Step>, outcome: nat -> Outcome, auto: nat -> bool, f: Serde, maxSize: nat)
    returns (ok: bool, payload: string)
    ensures ok ==> payload == Print(Array(Elements(pgm, outcome, auto, f)))
    ensures ok && IsSerde(f) ==> Read(payload) == Good(Array(Elements(pgm, outcome, auto, f)), "")
    ensures |Elements(pgm, outcome, auto, f)| == |pgm|
    ensures forall client, i :: Understands(client, f) && 0 <= i < |pgm| ==>
      ReadsAs(Elements(pgm, outcome, auto, f)[i], ReportOf(pgm, outcome, auto, i), client)
    ensures Utf8Len(payload) <= maxSize
    ensures ok <==> forall i :: 0 < i <= |RunCalls(pgm, outcome, auto)| ==>
      Utf8Len(Partial(After(EMPTY, RunCalls(pgm, outcome, auto)[..i], f), f)) <= maxSize
  {
    hide After, StepsCalls, Elements, Print, Accepted, Read, IsSerde, Utf8Len;
    RunAccepted(pgm, outcome, auto);
    AfterRun(pgm, outcome, auto, f);
    var calls := RunCalls(pgm, outcome, auto);
    OneElementEach(pgm, outcome, auto, f);
    forall client, i | Understands(client, f) && 0 <= i < |pgm|
      ensures ReadsAs(Elements(pgm, outcome, auto, f)[i], ReportOf(pgm, outcome, auto, i), client)
    {
      ElementReads(pgm, outcome, auto, f, client, i);
    }
    ok, payload := Build(calls, f, maxSize);
  }
}
