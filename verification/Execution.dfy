/** Running a program against a result builder (`sqld/src/connection/libsql.rs`), and what
    builders may expect (`sqld/src/query_result_builder.rs`). */
module Execution {
  import opened Basics
  import opened Programs
  import Names = ObjectNames

  /** Column values; a real number is finite, or not. */
  datatype Value = Null | Integer(i: int) | Real(x: real) | NotFinite | Text(s: string) | Blob(bytes: seq<nat>)

  /** A call to a result builder. */
  datatype Call =
    | Init
    | Finish
    | BeginStep
    | FinishStep(affectedRowCount: nat, lastInsertRowid: Option<int>)
    | StepError(error: string)
    | ColsDescription(cols: seq<string>)
    | FinishRows
    | BeginRows
    | FinishRow
    | BeginRow
    | AddRowValue(v: Value)

  /** The transition table of builders: which call may follow which. */
  predicate MayFollow(to: Call, from: Call) {
    match to
    case Init => true
    case Finish => from.Init? || from.FinishStep?
    case BeginStep => from.Init? || from.FinishStep?
    case FinishStep(_, _) => from.BeginStep? || from.StepError? || from.FinishRows?
    case StepError(_) =>
      || from.BeginStep? || from.ColsDescription? || from.FinishRows? || from.BeginRows?
      || from.FinishRow? || from.BeginRow? || from.AddRowValue?
    case ColsDescription(_) => from.BeginStep?
    case FinishRows => from.BeginRows? || from.FinishRow?
    case BeginRows => from.ColsDescription?
    case FinishRow => from.BeginRow? || from.AddRowValue?
    case BeginRow => from.BeginRows? || from.FinishRow?
    case AddRowValue(_) => from.BeginRow? || from.AddRowValue?
  }

  /** Every call may follow the one before it. */
  ghost predicate Chain(calls: seq<Call>) {
    forall i :: 0 < i < |calls| ==> MayFollow(calls[i], calls[i - 1])
  }

  /** A trace that the transition table accepts. */
  ghost predicate Accepted(trace: seq<Call>) {
    Chain(trace) && (trace != [] ==> trace[0].Init?)
  }

  lemma ChainJoin(a: seq<Call>, b: seq<Call>)
    requires Chain(a) && Chain(b) && (a != [] && b != [] ==> MayFollow(b[0], a[|a| - 1]))
    ensures Chain(a + b)
  {
    forall i | 0 < i < |a + b|
      ensures MayFollow((a + b)[i], (a + b)[i - 1])
    {
      if i > |a| {
        assert (a + b)[i] == b[i - |a|] && (a + b)[i - 1] == b[i - |a| - 1];
      }
    }
  }

  // ---------------------------------------------------------------- the calls of a query

  /** How the execution of a query goes: it is blocked or cannot be prepared, its parameters
      cannot be bound, it fails after some rows and perhaps within one, or it succeeds. */
  datatype Outcome =
    | Refused(error: string)
    | BadParams(cols: seq<string>, error: string)
    | Broken(cols: seq<string>, rows: seq<seq<Value>>, partial: Option<seq<Value>>, error: string)
    | Success(cols: seq<string>, rows: seq<seq<Value>>, affectedRowCount: nat, lastInsertRowid: Option<int>)

  predicate HasRows(o: Outcome) {
    o.Broken? || o.Success?
  }

  function ValueCalls(values: seq<Value>): (calls: seq<Call>)
    ensures |calls| == |values|
  {
    seq(|values|, i requires 0 <= i < |values| => AddRowValue(values[i]))
  }

  function RowCalls(row: seq<Value>): seq<Call> {
    [BeginRow] + ValueCalls(row) + [FinishRow]
  }

  function RowsCalls(rows: seq<seq<Value>>): seq<Call> {
    if rows == [] then [] else RowsCalls(rows[..|rows| - 1]) + RowCalls(rows[|rows| - 1])
  }

  function TailCalls(o: Outcome): seq<Call>
    requires HasRows(o)
  {
    if o.Success? then [FinishRows]
    else if o.partial.None? then []
    else [BeginRow] + ValueCalls(o.partial.value)
  }

  function QueryCalls(o: Outcome): seq<Call> {
    match o
    case Refused(_) => []
    case BadParams(cols, _) => [ColsDescription(cols)]
    case _ => [ColsDescription(o.cols), BeginRows] + RowsCalls(o.rows) + TailCalls(o)
  }

  // ---------------------------------------------------------------- the calls of a run

  /** The message of the error for a condition about a step that has not run. */
  function InvalidBatchStep(step: nat): string {
    "Invalid batch step: " + Names.Decimal(step)
  }

  function ErrorCalls(enabled: Result<bool, nat>, o: Outcome): seq<Call> {
    match enabled
    case Err(step) => [StepError(InvalidBatchStep(step))]
    case Ok(false) => []
    case Ok(true) => QueryCalls(o) + if o.Success? then [] else [StepError(o.error)]
  }

  function FinishCall(enabled: Result<bool, nat>, o: Outcome): Call {
    if enabled == Ok(true) && o.Success? then FinishStep(o.affectedRowCount, o.lastInsertRowid) else FinishStep(0, None)
  }

  function StepCalls(enabled: Result<bool, nat>, o: Outcome): seq<Call> {
    [BeginStep] + ErrorCalls(enabled, o) + [FinishCall(enabled, o)]
  }

  /** The outcomes as successes. */
  function Succeeds(outcome: nat -> Outcome): nat -> bool {
    (i: nat) => outcome(i).Success?
  }

  function EnabledAt(pgm: seq<Step>, outcome: nat -> Outcome, auto: nat -> bool, k: nat): Result<bool, nat>
    requires k < |pgm|
  {
    Enabled(pgm[k], Results(pgm, Succeeds(outcome), auto, k), auto(k))
  }

  function StepsCalls(pgm: seq<Step>, outcome: nat -> Outcome, auto: nat -> bool, k: nat): seq<Call>
    requires k <= |pgm|
  {
    if k == 0 then []
    else StepsCalls(pgm, outcome, auto, k - 1) + StepCalls(EnabledAt(pgm, outcome, auto, k - 1), outcome(k - 1))
  }

  /** All calls of a run that no builder error interrupts. */
  function RunCalls(pgm: seq<Step>, outcome: nat -> Outcome, auto: nat -> bool): seq<Call> {
    [Init] + StepsCalls(pgm, outcome, auto, |pgm|) + [Finish]
  }

  // ---------------------------------------------------------------- runs are accepted

  lemma ValuesChain(values: seq<Value>)
    ensures Chain([BeginRow] + ValueCalls(values))
    ensures Chain(RowCalls(values))
  {
    ChainJoin([BeginRow], ValueCalls(values));
    ChainJoin([BeginRow] + ValueCalls(values), [FinishRow]);
  }

  lemma {:induction false} RowsChain(rows: seq<seq<Value>>)
    ensures Chain([BeginRows] + RowsCalls(rows))
    ensures var calls := [BeginRows] + RowsCalls(rows);
      calls[|calls| - 1].BeginRows? || calls[|calls| - 1].FinishRow?
  {
    if rows != [] {
      var front, last := rows[..|rows| - 1], rows[|rows| - 1];
      RowsChain(front);
      ValuesChain(last);
      ChainJoin([BeginRows] + RowsCalls(front), RowCalls(last));
      assert [BeginRows] + RowsCalls(rows) == [BeginRows] + RowsCalls(front) + RowCalls(last);
    }
  }

  /** The call that ends a step or reports its error. */
  function NextCall(o: Outcome): Call {
    if o.Success? then FinishStep(0, None) else StepError(o.error)
  }

  lemma TailChain(o: Outcome, before: seq<Call>)
    requires HasRows(o) && Chain(before) && before != []
    requires before[|before| - 1].BeginRows? || before[|before| - 1].FinishRow?
    ensures Chain(before + TailCalls(o))
    ensures var calls := before + TailCalls(o); MayFollow(NextCall(o), calls[|calls| - 1])
  {
    TailAlone(o);
    hide TailCalls, Chain;
    var tail := TailCalls(o);
    ChainJoin(before, tail);
    if tail == [] {
      assert before + tail == before;
    } else {
      assert (before + tail)[|before + tail| - 1] == tail[|tail| - 1];
    }
  }

  /** The tail may follow the rows, and the next call may follow the tail. */
  lemma TailAlone(o: Outcome)
    requires HasRows(o)
    ensures var tail := TailCalls(o);
      && Chain(tail)
      && (tail == [] ==> NextCall(o).StepError?)
      && (tail != [] ==> (tail[0].FinishRows? || tail[0].BeginRow?) && MayFollow(NextCall(o), tail[|tail| - 1]))
  {
    hide ValueCalls, Chain;
    ShortChains();
    if o.Broken? && o.partial.Some? {
      ValuesChain(o.partial.value);
      LastValue(o.partial.value);
    }
  }

  lemma ShortChains()
    ensures Chain([]) && Chain([FinishRows])
  {
  }

  /** After the calls of a query, an error or the end of the step may follow. */
  lemma QueryChain(o: Outcome)
    ensures Chain([BeginStep] + QueryCalls(o))
    ensures var calls := [BeginStep] + QueryCalls(o); MayFollow(NextCall(o), calls[|calls| - 1])
  {
    hide RowsCalls, TailCalls;
    if HasRows(o) {
      var head, rows := [BeginStep, ColsDescription(o.cols)], [BeginRows] + RowsCalls(o.rows);
      RowsChain(o.rows);
      ChainJoin(head, rows);
      TailChain(o, head + rows);
      QueryParts(o);
    }
  }

  lemma QueryParts(o: Outcome)
    requires HasRows(o)
    ensures [BeginStep] + QueryCalls(o) ==
      [BeginStep, ColsDescription(o.cols)] + ([BeginRows] + RowsCalls(o.rows)) + TailCalls(o)
  {
    hide RowsCalls, TailCalls, Chain;
    var rows, tail := RowsCalls(o.rows), TailCalls(o);
    assert [BeginStep] + ([ColsDescription(o.cols), BeginRows] + rows + tail) ==
      [BeginStep, ColsDescription(o.cols)] + ([BeginRows] + rows) + tail;
  }

  lemma LastValue(values: seq<Value>)
    ensures var calls := [BeginRow] + ValueCalls(values);
      calls[|calls| - 1].BeginRow? || calls[|calls| - 1].AddRowValue?
  {
  }

  lemma StepChain(enabled: Result<bool, nat>, o: Outcome)
    ensures Chain(StepCalls(enabled, o))
  {
    hide QueryCalls;
    QueryChain(o);
    var calls := [BeginStep] + ErrorCalls(enabled, o);
    if enabled == Ok(true) && !o.Success? {
      ChainJoin([BeginStep] + QueryCalls(o), [StepError(o.error)]);
      assert calls == [BeginStep] + QueryCalls(o) + [StepError(o.error)];
    } else if enabled == Ok(true) {
      assert calls == [BeginStep] + QueryCalls(o);
    }
    ChainJoin(calls, [FinishCall(enabled, o)]);
  }

  lemma {:induction false} StepsChain(pgm: seq<Step>, outcome: nat -> Outcome, auto: nat -> bool, k: nat)
    requires k <= |pgm|
    ensures Chain([Init] + StepsCalls(pgm, outcome, auto, k))
    ensures var calls := [Init] + StepsCalls(pgm, outcome, auto, k);
      calls[|calls| - 1].Init? || calls[|calls| - 1].FinishStep?
  {
    hide ErrorCalls, EnabledAt;
    if k > 0 {
      StepsChain(pgm, outcome, auto, k - 1);
      var front := [Init] + StepsCalls(pgm, outcome, auto, k - 1);
      var last := StepCalls(EnabledAt(pgm, outcome, auto, k - 1), outcome(k - 1));
      StepChain(EnabledAt(pgm, outcome, auto, k - 1), outcome(k - 1));
      ChainJoin(front, last);
      assert [Init] + StepsCalls(pgm, outcome, auto, k) == front + last;
    }
  }

  /** Whatever the program and however its queries go, the transition table accepts the calls. */
  lemma RunAccepted(pgm: seq<Step>, outcome: nat -> Outcome, auto: nat -> bool)
    ensures Accepted(RunCalls(pgm, outcome, auto))
  {
    hide StepsCalls;
    StepsChain(pgm, outcome, auto, |pgm|);
    ChainJoin([Init] + StepsCalls(pgm, outcome, auto, |pgm|), [Finish]);
  }

  // ---------------------------------------------------------------- what the calls say

  /** Where a builder stands. */
  datatype Phase = Between | StepOpen | ColsKnown | RowsOpen | RowOpen | RowsClosed | HasFailed | AllDone

  /** What may happen in a phase; it can start over at any time. */
  function PhaseAfter(phase: Phase, c: Call): Option<Phase> {
    if c.Init? then Some(Between)
    else
      match phase
      case Between => if c.BeginStep? then Some(StepOpen) else if c.Finish? then Some(AllDone) else None
      case StepOpen =>
        if c.ColsDescription? then Some(ColsKnown)
        else if c.StepError? then Some(HasFailed)
        else if c.FinishStep? then Some(Between)
        else None
      case ColsKnown => if c.BeginRows? then Some(RowsOpen) else if c.StepError? then Some(HasFailed) else None
      case RowsOpen =>
        if c.BeginRow? then Some(RowOpen)
        else if c.FinishRows? then Some(RowsClosed)
        else if c.StepError? then Some(HasFailed)
        else None
      case RowOpen =>
        if c.AddRowValue? then Some(RowOpen)
        else if c.FinishRow? then Some(RowsOpen)
        else if c.StepError? then Some(HasFailed)
        else None
      case RowsClosed => if c.FinishStep? then Some(Between) else if c.StepError? then Some(HasFailed) else None
      case HasFailed => if c.FinishStep? then Some(Between) else None
      case AllDone => None
  }

  /** The phase after a trace, if every call of it was allowed; it has to begin with `Init`. */
  function PhaseOf(trace: seq<Call>): Option<Phase> {
    if trace == [] then None
    else
      var c := trace[|trace| - 1];
      if |trace| == 1 then (if c.Init? then Some(Between) else None)
      else
        match PhaseOf(trace[..|trace| - 1])
        case None => None
        case Some(phase) => PhaseAfter(phase, c)
  }

  /** The transition table accepts exactly what the phases allow. */
  lemma {:induction false} TableIsPhases(trace: seq<Call>)
    requires trace != []
    ensures Accepted(trace) <==> PhaseOf(trace).Some?
    ensures Accepted(trace) ==>
      forall c :: PhaseAfter(PhaseOf(trace).value, c).Some? <==> MayFollow(c, trace[|trace| - 1])
  {
    var n := |trace| - 1;
    if n > 0 {
      var front := trace[..n];
      TableIsPhases(front);
      assert forall i :: 0 <= i < n ==> front[i] == trace[i];
      ChainFront(trace);
    }
  }

  lemma ChainFront(trace: seq<Call>)
    requires |trace| >= 2
    ensures var n := |trace| - 1; Chain(trace) <==> Chain(trace[..n]) && MayFollow(trace[n], trace[n - 1])
  {
    hide MayFollow;
    var n := |trace| - 1;
    var front := trace[..n];
    assert forall i :: 0 <= i < n ==> front[i] == trace[i];
  }

  /** The calls that end steps. */
  function Finishes(trace: seq<Call>): seq<Call> {
    if trace == [] then []
    else
      var c := trace[|trace| - 1];
      Finishes(trace[..|trace| - 1]) + if c.FinishStep? then [c] else []
  }

  lemma {:induction false} FinishesJoin(a: seq<Call>, b: seq<Call>)
    ensures Finishes(a + b) == Finishes(a) + Finishes(b)
  {
    if b == [] {
      assert a + b == a;
    } else {
      assert (a + b)[..|a + b| - 1] == a + b[..|b| - 1];
      FinishesJoin(a, b[..|b| - 1]);
    }
  }

  lemma {:induction false} NoFinishes(calls: seq<Call>)
    requires forall i :: 0 <= i < |calls| ==> !calls[i].FinishStep?
    ensures Finishes(calls) == []
  {
    if calls != [] {
      NoFinishes(calls[..|calls| - 1]);
    }
  }

  /** What a step reports at its end: what its query has changed if it ran and succeeded. */
  lemma {:induction false} StepsReport(pgm: seq<Step>, outcome: nat -> Outcome, auto: nat -> bool, k: nat)
    requires k <= |pgm|
    ensures var calls := Finishes(StepsCalls(pgm, outcome, auto, k));
      && |calls| == k
      && forall i :: 0 <= i < k ==>
        calls[i] == if Ran(pgm, Succeeds(outcome), auto, i) && outcome(i).Success?
                    then FinishStep(outcome(i).affectedRowCount, outcome(i).lastInsertRowid)
                    else FinishStep(0, None)
  {
    hide Finishes, StepsCalls, Ran;
    AllReported(pgm, outcome, auto, k);
  }

  ghost function Reported(pgm: seq<Step>, outcome: nat -> Outcome, auto: nat -> bool, i: nat): Call
    requires i < |pgm|
  {
    if Ran(pgm, Succeeds(outcome), auto, i) && outcome(i).Success?
    then FinishStep(outcome(i).affectedRowCount, outcome(i).lastInsertRowid)
    else FinishStep(0, None)
  }

  lemma {:induction false} AllReported(pgm: seq<Step>, outcome: nat -> Outcome, auto: nat -> bool, k: nat)
    requires k <= |pgm|
    ensures var calls := Finishes(StepsCalls(pgm, outcome, auto, k));
      |calls| == k && forall i :: 0 <= i < k ==> calls[i] == Reported(pgm, outcome, auto, i)
  {
    hide Finishes, StepCalls, Reported, EnabledAt;
    if k == 0 {
      NoFinishes([]);
    } else {
      AllReported(pgm, outcome, auto, k - 1);
      var front, last :=
        StepsCalls(pgm, outcome, auto, k - 1), StepCalls(EnabledAt(pgm, outcome, auto, k - 1), outcome(k - 1));
      FinishesJoin(front, last);
      StepReports(pgm, outcome, auto, k - 1);
    }
  }

  lemma StepReports(pgm: seq<Step>, outcome: nat -> Outcome, auto: nat -> bool, i: nat)
    requires i < |pgm|
    ensures Finishes(StepCalls(EnabledAt(pgm, outcome, auto, i), outcome(i))) == [Reported(pgm, outcome, auto, i)]
  {
    hide Finishes, ErrorCalls, Results;
    var enabled, o := EnabledAt(pgm, outcome, auto, i), outcome(i);
    var inside := [BeginStep] + ErrorCalls(enabled, o);
    StepInside(enabled, o);
    NoFinishes(inside);
    FinishesJoin(inside, [FinishCall(enabled, o)]);
    OneFinish(FinishCall(enabled, o));
  }

  lemma OneFinish(c: Call)
    ensures Finishes([c]) == if c.FinishStep? then [c] else []
  {
    assert [c][..0] == [];
  }

  // ---------------------------------------------------------------- running

  /** A builder, known by the calls it got; `fails` tells which of them it answers with an
      error. */
  class Builder {
    const fails: nat -> bool
    var trace: seq<Call>

    constructor (fails: nat -> bool)
      ensures trace == [] && this.fails == fails
    {
      this.fails, trace := fails, [];
    }

    method Emit(c: Call) returns (ok: bool)
      modifies this
      ensures trace == old(trace) + [c] && ok == !fails(|old(trace)|)
      ensures Emitted(old(trace), [c], trace, fails, ok)
    {
      ok := !fails(|trace|);
      trace := trace + [c];
    }
  }

  /** The builder got the given calls, up to and including the first one that failed. */
  ghost predicate Emitted(before: seq<Call>, calls: seq<Call>, after: seq<Call>, fails: nat -> bool, ok: bool) {
    && |before| <= |after| <= |before| + |calls| && after == (before + calls)[..|after|]
    && (forall i: nat :: |before| <= i && i < |after| - (if ok then 0 else 1) ==> !fails(i))
    && (if ok then |after| == |before| + |calls| else |before| < |after| && fails(|after| - 1))
  }

  lemma EmittedNothing(before: seq<Call>, fails: nat -> bool)
    ensures Emitted(before, [], before, fails, true)
  {
  }

  lemma EmittedMore(a: seq<Call>, x: seq<Call>, b: seq<Call>, y: seq<Call>, c: seq<Call>, fails: nat -> bool, ok: bool)
    requires Emitted(a, x, b, fails, true) && Emitted(b, y, c, fails, ok)
    ensures Emitted(a, x + y, c, fails, ok)
  {
    assert b == a + x;
    assert a + (x + y) == b + y;
  }

  lemma EmittedCut(a: seq<Call>, x: seq<Call>, y: seq<Call>, b: seq<Call>, fails: nat -> bool)
    requires Emitted(a, x, b, fails, false)
    ensures Emitted(a, x + y, b, fails, false)
  {
    assert (a + (x + y))[..|b|] == (a + x)[..|b|];
  }

  method EmitValues(b: Builder, values: seq<Value>) returns (ok: bool)
    modifies b
    ensures Emitted(old(b.trace), ValueCalls(values), b.trace, b.fails, ok)
  {
    hide Emitted;
    EmittedNothing(b.trace, b.fails);
    for i := 0 to |values|
      invariant Emitted(old(b.trace), ValueCalls(values[..i]), b.trace, b.fails, true)
    {
      ghost var before := b.trace;
      ok := b.Emit(AddRowValue(values[i]));
      EmittedMore(old(b.trace), ValueCalls(values[..i]), before, [AddRowValue(values[i])], b.trace, b.fails, ok);
      assert ValueCalls(values[..i]) + [AddRowValue(values[i])] == ValueCalls(values[..i + 1]);
      if !ok {
        EmittedCut(old(b.trace), ValueCalls(values[..i + 1]), ValueCalls(values[i + 1..]), b.trace, b.fails);
        assert ValueCalls(values[..i + 1]) + ValueCalls(values[i + 1..]) == ValueCalls(values);
        return false;
      }
    }
    assert values[..|values|] == values;
    return true;
  }

  method EmitRow(b: Builder, row: seq<Value>) returns (ok: bool)
    modifies b
    ensures Emitted(old(b.trace), RowCalls(row), b.trace, b.fails, ok)
  {
    hide Emitted, ValueCalls;
    ghost var a := b.trace;
    ok := b.Emit(BeginRow);
    if !ok {
      EmittedCut(a, [BeginRow], ValueCalls(row), b.trace, b.fails);
      EmittedCut(a, [BeginRow] + ValueCalls(row), [FinishRow], b.trace, b.fails);
      return;
    }
    ghost var a1 := b.trace;
    ok := EmitValues(b, row);
    EmittedMore(a, [BeginRow], a1, ValueCalls(row), b.trace, b.fails, ok);
    if !ok {
      EmittedCut(a, [BeginRow] + ValueCalls(row), [FinishRow], b.trace, b.fails);
      return;
    }
    ghost var a2 := b.trace;
    ok := b.Emit(FinishRow);
    EmittedMore(a, [BeginRow] + ValueCalls(row), a2, [FinishRow], b.trace, b.fails, ok);
  }

  lemma {:induction false} RowsSplit(x: seq<seq<Value>>, y: seq<seq<Value>>)
    ensures RowsCalls(x + y) == RowsCalls(x) + RowsCalls(y)
  {
    hide RowCalls;
    if y == [] {
      assert x + y == x;
    } else {
      assert (x + y)[..|x + y| - 1] == x + y[..|y| - 1];
      RowsSplit(x, y[..|y| - 1]);
      assert RowsCalls(x) + RowsCalls(y[..|y| - 1]) + RowCalls(y[|y| - 1]) ==
        RowsCalls(x) + (RowsCalls(y[..|y| - 1]) + RowCalls(y[|y| - 1]));
    }
  }

  method EmitRows(b: Builder, rows: seq<seq<Value>>) returns (ok: bool)
    modifies b
    ensures Emitted(old(b.trace), RowsCalls(rows), b.trace, b.fails, ok)
  {
    hide Emitted, RowCalls;
    EmittedNothing(b.trace, b.fails);
    for i := 0 to |rows|
      invariant Emitted(old(b.trace), RowsCalls(rows[..i]), b.trace, b.fails, true)
    {
      ghost var before := b.trace;
      ok := EmitRow(b, rows[i]);
      EmittedMore(old(b.trace), RowsCalls(rows[..i]), before, RowCalls(rows[i]), b.trace, b.fails, ok);
      assert rows[..i + 1][..i] == rows[..i];
      if !ok {
        EmittedCut(old(b.trace), RowsCalls(rows[..i + 1]), RowsCalls(rows[i + 1..]), b.trace, b.fails);
        RowsSplit(rows[..i + 1], rows[i + 1..]);
        assert rows[..i + 1] + rows[i + 1..] == rows;
        return false;
      }
    }
    assert rows[..|rows|] == rows;
    return true;
  }

  method EmitTail(b: Builder, o: Outcome) returns (ok: bool)
    requires HasRows(o)
    modifies b
    ensures Emitted(old(b.trace), TailCalls(o), b.trace, b.fails, ok)
  {
    hide Emitted, ValueCalls;
    EmittedNothing(b.trace, b.fails);
    if o.Success? {
      ok := b.Emit(FinishRows);
    } else if o.partial.None? {
      ok := true;
    } else {
      ghost var a := b.trace;
      ok := b.Emit(BeginRow);
      if !ok {
        EmittedCut(a, [BeginRow], ValueCalls(o.partial.value), b.trace, b.fails);
        return;
      }
      ghost var a1 := b.trace;
      ok := EmitValues(b, o.partial.value);
      EmittedMore(a, [BeginRow], a1, ValueCalls(o.partial.value), b.trace, b.fails, ok);
    }
  }

  /** Executes a query that goes as `o` says.  False is a builder error; a failing query is
      told by its outcome. */
  method ExecuteQuery(b: Builder, o: Outcome) returns (ok: bool)
    modifies b
    ensures Emitted(old(b.trace), QueryCalls(o), b.trace, b.fails, ok)
  {
    hide Emitted, RowsCalls, TailCalls;
    ghost var a := b.trace;
    EmittedNothing(a, b.fails);
    if o.Refused? {
      return true;
    }
    ok := b.Emit(ColsDescription(o.cols));
    if o.BadParams? {
      return;
    }
    ghost var head, rows, tail := [ColsDescription(o.cols)] + [BeginRows], RowsCalls(o.rows), TailCalls(o);
    assert QueryCalls(o) == head + rows + tail;
    if !ok {
      EmittedCut(a, [ColsDescription(o.cols)], [BeginRows], b.trace, b.fails);
      EmittedCut2(a, head, rows, tail, b.trace, b.fails);
      return;
    }
    ghost var a1 := b.trace;
    ok := b.Emit(BeginRows);
    EmittedMore(a, [ColsDescription(o.cols)], a1, [BeginRows], b.trace, b.fails, ok);
    if !ok {
      EmittedCut2(a, head, rows, tail, b.trace, b.fails);
      return;
    }
    ok := EmitRest(b, o, a, head);
  }

  lemma EmittedCut2(a: seq<Call>, x: seq<Call>, y: seq<Call>, z: seq<Call>, b: seq<Call>, fails: nat -> bool)
    requires Emitted(a, x, b, fails, false)
    ensures Emitted(a, x + y + z, b, fails, false)
  {
    hide Emitted;
    EmittedCut(a, x, y, b, fails);
    EmittedCut(a, x + y, z, b, fails);
  }

  method EmitRest(b: Builder, o: Outcome, ghost a: seq<Call>, ghost head: seq<Call>) returns (ok: bool)
    requires HasRows(o) && Emitted(a, head, b.trace, b.fails, true)
    modifies b
    ensures Emitted(a, head + RowsCalls(o.rows) + TailCalls(o), b.trace, b.fails, ok)
  {
    hide Emitted, RowsCalls, TailCalls;
    ghost var a2 := b.trace;
    ok := EmitRows(b, o.rows);
    EmittedMore(a, head, a2, RowsCalls(o.rows), b.trace, b.fails, ok);
    if !ok {
      EmittedCut(a, head + RowsCalls(o.rows), TailCalls(o), b.trace, b.fails);
      return;
    }
    ghost var a3 := b.trace;
    ok := EmitTail(b, o);
    EmittedMore(a, head + RowsCalls(o.rows), a3, TailCalls(o), b.trace, b.fails, ok);
  }

  /** How a step or a run ends. */
  datatype End<T> = Done(value: T) | BuilderError | Panicked

  /** Executes one step and tells whether it ran and succeeded.  The only panic is a builder
      error while reporting a condition that cannot be evaluated. */
  method ExecuteStep(b: Builder, step: Step, results: seq<bool>, auto: bool, o: Outcome) returns (end: End<bool>)
    modifies b
    ensures Emitted(old(b.trace), StepCalls(Enabled(step, results, auto), o), b.trace, b.fails, end.Done?)
    ensures end.Done? ==> end.value == (Runs(step, results, auto) && o.Success?)
    ensures end.Panicked? ==> Enabled(step, results, auto).Err?
  {
    hide Emitted, EvalCond, QueryCalls;
    ghost var a, cond := b.trace, Enabled(step, results, auto);
    ghost var last := [FinishCall(cond, o)];
    var ok := b.Emit(BeginStep);
    if !ok {
      EmittedCut2(a, [BeginStep], ErrorCalls(cond, o), last, b.trace, b.fails);
      return BuilderError;
    }
    ghost var a1 := b.trace;
    var enabled := Enabled(step, results, auto);
    ok := EmitQuery(b, enabled, o);
    EmittedMore(a, [BeginStep], a1, ErrorCalls(cond, o), b.trace, b.fails, ok);
    if !ok {
      EmittedCut(a, [BeginStep] + ErrorCalls(cond, o), last, b.trace, b.fails);
      return if enabled.Err? then Panicked else BuilderError;
    }
    ghost var a2 := b.trace;
    var affectedRowCount: nat, lastInsertRowid: Option<int> := 0, None;
    if enabled == Ok(true) && o.Success? {
      affectedRowCount, lastInsertRowid := o.affectedRowCount, o.lastInsertRowid;
    }
    ok := b.Emit(FinishStep(affectedRowCount, lastInsertRowid));
    EmittedMore(a, [BeginStep] + ErrorCalls(cond, o), a2, last, b.trace, b.fails, ok);
    return if ok then Done(enabled == Ok(true) && o.Success?) else BuilderError;
  }

  /** Runs the query if the step is enabled, and reports its error. */
  method EmitQuery(b: Builder, enabled: Result<bool, nat>, o: Outcome) returns (ok: bool)
    modifies b
    ensures Emitted(old(b.trace), ErrorCalls(enabled, o), b.trace, b.fails, ok)
  {
    hide Emitted, QueryCalls;
    ghost var a := b.trace;
    EmittedNothing(a, b.fails);
    match enabled {
      case Err(step) =>
        ok := b.Emit(StepError(InvalidBatchStep(step)));
      case Ok(false) =>
        ok := true;
      case Ok(true) =>
        ok := ExecuteQuery(b, o);
        assert QueryCalls(o) + [] == QueryCalls(o);
        if o.Success? {
          return;
        }
        if !ok {
          EmittedCut(a, QueryCalls(o), [StepError(o.error)], b.trace, b.fails);
          return;
        }
        ghost var a1 := b.trace;
        ok := b.Emit(StepError(o.error));
        EmittedMore(a, QueryCalls(o), a1, [StepError(o.error)], b.trace, b.fails, ok);
    }
  }

  /** Runs a program.  The builder gets the calls of the run, cut at the first builder error;
      the transition table accepts them, and a program in scope never panics. */
  method Run(b: Builder, pgm: seq<Step>, outcome: nat -> Outcome, auto: nat -> bool) returns (end: End<seq<bool>>)
    requires b.trace == []
    modifies b
    ensures Emitted([], RunCalls(pgm, outcome, auto), b.trace, b.fails, end.Done?)
    ensures Accepted(b.trace)
    ensures end.Done? ==> end.value == Results(pgm, Succeeds(outcome), auto, |pgm|)
    ensures InScope(pgm) ==> !end.Panicked?
  {
    hide Emitted, Accepted, Enabled, Within, InScope, StepCalls, StepsCalls;
    ghost var n := |pgm|;
    var results: seq<bool> := [];
    var ok := b.Emit(Init);
    NoStepYet(pgm, outcome, auto);
    if !ok {
      RunCut(pgm, outcome, auto, 0, b);
      return BuilderError;
    }
    for i: nat := 0 to |pgm|
      invariant results == Results(pgm, Succeeds(outcome), auto, i)
      invariant Emitted([], [Init] + StepsCalls(pgm, outcome, auto, i), b.trace, b.fails, true)
    {
      ghost var before, calls := b.trace, StepCalls(EnabledAt(pgm, outcome, auto, i), outcome(i));
      var end' := ExecuteStep(b, pgm[i], results, auto(i), outcome(i));
      EmittedMore([], [Init] + StepsCalls(pgm, outcome, auto, i), before, calls, b.trace, b.fails, end'.Done?);
      OneMoreStep(pgm, outcome, auto, i);
      if !end'.Done? {
        RunCut(pgm, outcome, auto, i + 1, b);
        NoPanic(pgm, outcome, auto, i);
        return if end'.Panicked? then Panicked else BuilderError;
      }
      results := results + [end'.value];
    }
    ghost var before := b.trace;
    ok := b.Emit(Finish);
    EmittedMore([], [Init] + StepsCalls(pgm, outcome, auto, n), before, [Finish], b.trace, b.fails, ok);
    RunCutAccepted(pgm, outcome, auto, b, ok);
    return if ok then Done(results) else BuilderError;
  }

  lemma NoStepYet(pgm: seq<Step>, outcome: nat -> Outcome, auto: nat -> bool)
    ensures [Init] + StepsCalls(pgm, outcome, auto, 0) == [Init]
  {
  }

  lemma OneMoreStep(pgm: seq<Step>, outcome: nat -> Outcome, auto: nat -> bool, i: nat)
    requires i < |pgm|
    ensures [Init] + StepsCalls(pgm, outcome, auto, i) + StepCalls(EnabledAt(pgm, outcome, auto, i), outcome(i)) ==
      [Init] + StepsCalls(pgm, outcome, auto, i + 1)
  {
    hide StepCalls, EnabledAt;
  }

  /** A run that a builder error stops is a run cut short. */
  lemma RunCut(pgm: seq<Step>, outcome: nat -> Outcome, auto: nat -> bool, i: nat, b: Builder)
    requires i <= |pgm| && Emitted([], [Init] + StepsCalls(pgm, outcome, auto, i), b.trace, b.fails, false)
    ensures Emitted([], RunCalls(pgm, outcome, auto), b.trace, b.fails, false) && Accepted(b.trace)
  {
    hide Emitted, StepsCalls, Accepted;
    var n := |pgm|;
    var rest := StepsSplit(pgm, outcome, auto, i, n);
    EmittedCut2([], [Init] + StepsCalls(pgm, outcome, auto, i), rest, [Finish], b.trace, b.fails);
    assert [Init] + StepsCalls(pgm, outcome, auto, i) + rest == [Init] + StepsCalls(pgm, outcome, auto, n);
    RunCutAccepted(pgm, outcome, auto, b, false);
  }

  lemma RunCutAccepted(pgm: seq<Step>, outcome: nat -> Outcome, auto: nat -> bool, b: Builder, ok: bool)
    requires Emitted([], RunCalls(pgm, outcome, auto), b.trace, b.fails, ok)
    ensures Accepted(b.trace)
  {
    hide RunCalls;
    RunAccepted(pgm, outcome, auto);
    assert [] + RunCalls(pgm, outcome, auto) == RunCalls(pgm, outcome, auto);
  }

  lemma NoPanic(pgm: seq<Step>, outcome: nat -> Outcome, auto: nat -> bool, i: nat)
    requires i < |pgm|
    ensures InScope(pgm) ==> EnabledAt(pgm, outcome, auto, i).Ok?
  {
    hide Within, Enabled;
    if InScope(pgm) {
      NeverInvalidStep(pgm, Succeeds(outcome), auto, i);
    }
  }

  lemma {:induction false} StepsSplit(pgm: seq<Step>, outcome: nat -> Outcome, auto: nat -> bool, i: nat, k: nat)
    returns (rest: seq<Call>)
    requires i <= k <= |pgm|
    ensures StepsCalls(pgm, outcome, auto, i) + rest == StepsCalls(pgm, outcome, auto, k)
    decreases k
  {
    hide StepCalls, EnabledAt;
    if i == k {
      rest := [];
    } else {
      var r := StepsSplit(pgm, outcome, auto, i, k - 1);
      rest := r + StepCalls(EnabledAt(pgm, outcome, auto, k - 1), outcome(k - 1));
    }
  }

  // ---------------------------------------------------------------- taking the first steps

  /** How many steps a `Take` has let through. */
  ghost function TakeCount(trace: seq<Call>, limit: nat): nat {
    if trace == [] then 0
    else
      var count := TakeCount(trace[..|trace| - 1], limit);
      match trace[|trace| - 1]
      case Init => 0
      case FinishStep(_, _) => if count < limit then count + 1 else count
      case _ => count
  }

  /** The calls that a `Take` forwards. */
  ghost function Taken(trace: seq<Call>, limit: nat): seq<Call> {
    if trace == [] then []
    else
      var front, last := trace[..|trace| - 1], trace[|trace| - 1];
      Taken(front, limit) + if last.Init? || last.Finish? || TakeCount(front, limit) < limit then [last] else []
  }

  /** A builder that forwards at most `limit` steps to another one. */
  class Take {
    const limit: nat
    const inner: Builder
    var count: nat
    ghost var received: seq<Call>

    ghost predicate Valid()
      reads this, inner
    {
      inner.trace == Taken(received, limit) && count == TakeCount(received, limit)
    }

    constructor (limit: nat, inner: Builder)
      requires inner.trace == []
      ensures Valid() && received == [] && this.limit == limit && this.inner == inner
    {
      this.limit, this.inner, count, received := limit, inner, 0, [];
    }

    method Forward(c: Call) returns (ok: bool)
      requires Valid()
      modifies this, inner
      ensures received == old(received) + [c]
      ensures inner.trace == Taken(received, limit)
      ensures ok ==> Valid()
    {
      hide Taken, TakeCount;
      TakenOne(received, c, limit);
      received := received + [c];
      match c {
        case Init =>
          count := 0;
          ok := inner.Emit(c);
        case FinishStep(_, _) =>
          if count < limit {
            ok := inner.Emit(c);
            if !ok {
              return;
            }
            count := count + 1;
          } else {
            ok := true;
          }
        case Finish =>
          ok := inner.Emit(c);
        case _ =>
          if count < limit {
            ok := inner.Emit(c);
          } else {
            ok := true;
          }
      }
    }
  }

  /** Calls inside a step. */
  ghost predicate Inside(calls: seq<Call>) {
    forall i :: 0 <= i < |calls| ==> !calls[i].Init? && !calls[i].Finish? && !calls[i].FinishStep?
  }

  lemma {:induction false} TakenInside(t: seq<Call>, calls: seq<Call>, limit: nat)
    requires Inside(calls)
    ensures TakeCount(t + calls, limit) == TakeCount(t, limit)
    ensures Taken(t + calls, limit) == Taken(t, limit) + if TakeCount(t, limit) < limit then calls else []
  {
    if calls == [] {
      assert t + calls == t;
    } else {
      var front := calls[..|calls| - 1];
      assert (t + calls)[..|t + calls| - 1] == t + front;
      TakenInside(t, front, limit);
      assert calls == front + [calls[|calls| - 1]];
    }
  }

  lemma TakenOne(t: seq<Call>, c: Call, limit: nat)
    ensures Taken(t + [c], limit) ==
      Taken(t, limit) + if c.Init? || c.Finish? || TakeCount(t, limit) < limit then [c] else []
    ensures c.Init? ==> TakeCount(t + [c], limit) == 0
    ensures c.FinishStep? ==>
      TakeCount(t + [c], limit) == if TakeCount(t, limit) < limit then TakeCount(t, limit) + 1 else TakeCount(t, limit)
    ensures !c.Init? && !c.FinishStep? ==> TakeCount(t + [c], limit) == TakeCount(t, limit)
  {
    assert (t + [c])[..|t|] == t;
  }

  lemma {:induction false} RowsInside(rows: seq<seq<Value>>)
    ensures Inside(RowsCalls(rows))
  {
    if rows != [] {
      RowsInside(rows[..|rows| - 1]);
    }
  }

  lemma StepInside(enabled: Result<bool, nat>, o: Outcome)
    ensures Inside([BeginStep] + ErrorCalls(enabled, o))
  {
    hide RowsCalls;
    if HasRows(o) {
      RowsInside(o.rows);
      assert Inside(TailCalls(o));
    }
    assert Inside(QueryCalls(o));
  }

  lemma TakenStep(t: seq<Call>, enabled: Result<bool, nat>, o: Outcome, limit: nat)
    ensures Taken(t + StepCalls(enabled, o), limit) ==
      Taken(t, limit) + if TakeCount(t, limit) < limit then StepCalls(enabled, o) else []
    ensures TakeCount(t + StepCalls(enabled, o), limit) ==
      if TakeCount(t, limit) < limit then TakeCount(t, limit) + 1 else TakeCount(t, limit)
  {
    hide ErrorCalls, Taken, TakeCount;
    var inside, last := [BeginStep] + ErrorCalls(enabled, o), FinishCall(enabled, o);
    StepInside(enabled, o);
    TakenInside(t, inside, limit);
    TakenOne(t + inside, last, limit);
    assert t + StepCalls(enabled, o) == t + inside + [last];
    assert Taken(t, limit) + inside + [last] == Taken(t, limit) + (inside + [last]);
  }

  lemma {:induction false} TakenSteps(pgm: seq<Step>, outcome: nat -> Outcome, auto: nat -> bool, k: nat, limit: nat)
    requires k <= |pgm| && limit <= |pgm|
    ensures var t, m := [Init] + StepsCalls(pgm, outcome, auto, k), if k < limit then k else limit;
      Taken(t, limit) == [Init] + StepsCalls(pgm, outcome, auto, m) && TakeCount(t, limit) == m
  {
    hide StepCalls, EnabledAt;
    hide Taken, TakeCount, StepsCalls;
    if k == 0 {
      NoStepYet(pgm, outcome, auto);
      TakenOne([], Init, limit);
      TakenNothing(limit);
      assert [] + [Init] == [Init];
    } else {
      TakenSteps(pgm, outcome, auto, k - 1, limit);
      var t, enabled := [Init] + StepsCalls(pgm, outcome, auto, k - 1), EnabledAt(pgm, outcome, auto, k - 1);
      TakenStep(t, enabled, outcome(k - 1), limit);
      OneMoreStep(pgm, outcome, auto, k - 1);
    }
  }

  lemma TakenNothing(limit: nat)
    ensures Taken([], limit) == [] && TakeCount([], limit) == 0
  {
  }

  lemma {:induction false} StepsPrefix(pgm: seq<Step>, pgm': seq<Step>, outcome: nat -> Outcome, auto: nat -> bool,
                                       k: nat)
    requires k <= |pgm| && pgm <= pgm'
    ensures StepsCalls(pgm, outcome, auto, k) == StepsCalls(pgm', outcome, auto, k)
  {
    hide StepCalls, Enabled;
    if k > 0 {
      StepsPrefix(pgm, pgm', outcome, auto, k - 1);
      ResultsPrefix(pgm, pgm', Succeeds(outcome), auto, k - 1);
    }
  }

  /** Behind a `Take` a run looks exactly like a run of the first `limit` steps alone. */
  lemma TakeIsARunOfTheFirstSteps(pgm: seq<Step>, outcome: nat -> Outcome, auto: nat -> bool, limit: nat)
    requires limit <= |pgm|
    ensures Taken(RunCalls(pgm, outcome, auto), limit) == RunCalls(pgm[..limit], outcome, auto)
  {
    hide StepsCalls, Taken, TakeCount;
    var t := [Init] + StepsCalls(pgm, outcome, auto, |pgm|);
    TakenSteps(pgm, outcome, auto, |pgm|, limit);
    TakenOne(t, Finish, limit);
    StepsPrefix(pgm[..limit], pgm, outcome, auto, limit);
  }
}
